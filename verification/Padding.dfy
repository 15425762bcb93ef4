/** The self-describing byte padding of `core.py`: pad to a multiple of eight
    with `n` copies of the byte `n`, and strip as many bytes as the last byte
    says. */
module Padding {
  import opened Bits
  import opened Results

  /** `_add_padding`: always appends between one and eight bytes, each equal
      to the number of bytes appended. */
  function AddPadding(m: seq<Byte>): (r: seq<Byte>)
    ensures |r| % 8 == 0
    ensures |m| < |r| <= |m| + 8
    ensures r[..|m|] == m
    ensures forall i :: |m| <= i < |r| ==> r[i] == |r| - |m|
  {
    var n := 8 - |m| % 8;
    m + seq(n, _ => n)
  }

  /** `_rem_padding`: `message[:-message[-1]]`. An empty message has no last
      byte (IndexError); a count of zero, or one larger than the message,
      leaves Python's slice empty. */
  function RemPadding(m: seq<Byte>): (r: Result<seq<Byte>>)
    ensures |m| == 0 <==> r.Err?
    ensures r.Err? ==> r.error == IndexError
    ensures r.Ok? && 0 < m[|m| - 1] <= |m| ==> r.value == m[..|m| - m[|m| - 1]]
    ensures r.Ok? && !(0 < m[|m| - 1] <= |m|) ==> r.value == []
  {
    if |m| == 0 then Err(IndexError)
    else
      var n := m[|m| - 1];
      if 0 < n <= |m| then Ok(m[..|m| - n]) else Ok([])
  }

  /** Removing the padding gives back the message that was padded. */
  lemma PaddingRoundTrip(m: seq<Byte>)
    ensures RemPadding(AddPadding(m)) == Ok(m)
  {
    var p := AddPadding(m);
    assert p[|p| - 1] == |p| - |m|;
  }

  /** Bytes inserted after the first eight bytes of a padded message of at
      least eight bytes do not disturb the padding count at its end. */
  lemma PaddingAfterInsert(m: seq<Byte>, x: seq<Byte>)
    requires |m| >= 8
    ensures var p := AddPadding(m);
      RemPadding(p[..8] + x + p[8..]) == Ok(m[..8] + x + m[8..])
  {
    var p := AddPadding(m);
    var s := p[..8] + x + p[8..];
    var n := |p| - |m|;
    assert s[|s| - 1] == p[|p| - 1] == n;
    assert s[..|s| - n] == m[..8] + x + m[8..];
  }
}
