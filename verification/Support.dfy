/**
 The string routines of syscalls/ece391support.c, over buffers that hold NUL-terminated
 strings.
 */
module Support {
  import opened Bytes

  predicate NulFree(s: seq<Byte>) { forall k :: 0 <= k < |s| ==> s[k] != NUL }

  /** A string of length end - start lies at start. */
  ghost predicate StringAt(data: array<Byte>, start: int, end: int)
    reads data
  {
    && 0 <= start <= end < data.Length && data[end] == NUL
    && forall k :: start <= k < end ==> data[k] != NUL
  }

  method Strlen(data: array<Byte>, start: nat, ghost end: nat) returns (len: nat)
    requires StringAt(data, start, end)
    ensures len == end - start
  {
    len := 0;
    while data[start + len] != NUL
      invariant start + len <= end
      decreases end - start - len
    {
      len := len + 1;
    }
  }

  /** Copies a string to the front of the same buffer; the two may overlap. */
  method CopyDown(data: array<Byte>, start: nat, ghost end: nat)
    requires StringAt(data, start, end)
    modifies data
    ensures StringAt(data, 0, end - start) && data[..end - start] == old(data[start..end])
    ensures forall k :: end - start < k < data.Length ==> data[k] == old(data[k])
  {
    var i := 0;
    while data[start + i] != NUL
      invariant 0 <= i <= end - start
      invariant forall k :: 0 <= k < i ==> data[k] == old(data[start + k])
      invariant forall k :: i <= k < data.Length ==> data[k] == old(data[k])
      decreases end - start - i
    {
      data[i] := data[start + i];
      i := i + 1;
    }
    data[i] := data[start + i];
    assert data[..i] == old(data[start..end]);
  }

  /** ece391_strncmp of the string at start with all of the characters of s. */
  method Strncmp(data: array<Byte>, start: nat, s: seq<Byte>, ghost end: nat) returns (r: int)
    requires StringAt(data, start, end) && NulFree(s)
    ensures r == 0 <==> s <= data[start..end]
  {
    var n, i := |s|, 0;
    if n == 0 { return 0; }
    while data[start + i] == s[i]
      invariant 0 <= i < |s| && n == |s| - i && start + i <= end
      invariant s[..i] == data[start..start + i]
      decreases n
    {
      n := n - 1;
      if data[start + i] == NUL || n == 0 {
        assert start + i < end;
        assert s[..i] + [s[i]] == s && data[start..end][..i] == data[start..start + i];
        assert s == data[start..end][..i] + [data[start..end][i]];
        return 0;
      }
      i := i + 1;
    }
    r := data[start + i] as int - s[i] as int;
    assert start + i < end ==> data[start..end][i] != s[i];
  }
}
