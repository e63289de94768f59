/** Locating the entitlements plist inside a code-signature blob
    (src/ios/entitlements.rs): a first-occurrence search for the magic bytes, a
    big-endian length, and the payload slice they delimit. */
module Entitlements {
  import opened Wrappers

  /** The blob magic `fa de 71 71`. */
  const Magic: seq<u8> := [0xfa, 0xde, 0x71, 0x71]

  /** The four bytes starting at `i` are the magic. */
  predicate MagicAt(buf: seq<u8>, i: int)
  {
    0 <= i && i + 4 <= |buf| && buf[i..i + 4] == Magic
  }

  /** The first magic at or after `i`. */
  function FirstMagicFrom(buf: seq<u8>, i: nat): (r: Option<nat>)
    requires i <= |buf|
    ensures r.Some? ==> i <= r.value && MagicAt(buf, r.value)
    ensures r.Some? ==> forall j :: i <= j < r.value ==> !MagicAt(buf, j)
    ensures r.None? ==> forall j :: i <= j ==> !MagicAt(buf, j)
    decreases |buf| - i
  {
    if i + 4 > |buf| then None
    else if MagicAt(buf, i) then Some(i)
    else FirstMagicFrom(buf, i + 1)
  }

  /** The offset of the first magic in the buffer, if any. */
  function FirstMagic(buf: seq<u8>): (r: Option<nat>)
    ensures r.Some? ==> MagicAt(buf, r.value) && forall j :: 0 <= j < r.value ==> !MagicAt(buf, j)
    ensures r.None? <==> forall j :: !MagicAt(buf, j)
  {
    FirstMagicFrom(buf, 0)
  }

  /** `find_codesign_magic_offset`: scans the 4-byte windows in order and stops at
      the first that equals the magic; a buffer shorter than 4 has no window. */
  method FindCodesignMagicOffset(buf: seq<u8>) returns (r: Option<nat>)
    ensures r.Some? ==> MagicAt(buf, r.value) && forall j :: 0 <= j < r.value ==> !MagicAt(buf, j)
    ensures r.None? <==> forall j :: !MagicAt(buf, j)
    ensures r == FirstMagic(buf)
  {
    var offset: nat := 0;
    while offset + 4 <= |buf|
      invariant forall j :: 0 <= j < offset ==> !MagicAt(buf, j)
      decreases |buf| - offset
    {
      if buf[offset..offset + 4] == Magic {
        return Some(offset);
      }
      offset := offset + 1;
    }
    return None;
  }

  /** A big-endian 32-bit length. */
  function BigEndian32(b: seq<u8>): u32
    requires |b| == 4
  {
    (b[0] as int) * 0x100_0000 + (b[1] as int) * 0x1_0000 + (b[2] as int) * 0x100 + b[3] as int
  }

  function EncodeBigEndian32(n: u32): (r: seq<u8>)
    ensures |r| == 4
  {
    [n / 0x100_0000, (n / 0x1_0000) % 0x100, (n / 0x100) % 0x100, n % 0x100]
  }

  /** Decoding inverts encoding ... */
  lemma DecodeEncode(n: u32)
    ensures BigEndian32(EncodeBigEndian32(n)) == n
  {
    var b := EncodeBigEndian32(n);
    var q1, q2 := n / 0x100, n / 0x1_0000;
    assert n == q1 * 0x100 + b[3];
    assert q1 == q2 * 0x100 + b[2];
    assert q2 == (b[0] as int) * 0x100 + b[1] as int;
  }

  /** ... and encoding inverts decoding, so the four bytes determine the length. */
  lemma EncodeDecode(b: seq<u8>)
    requires |b| == 4
    ensures EncodeBigEndian32(BigEndian32(b)) == b
  {
    var n := BigEndian32(b);
    var low := (b[2] as int) * 0x100 + b[3] as int;
    var mid := (b[1] as int) * 0x1_0000 + low;
    assert n == (b[0] as int) * 0x100_0000 + mid && mid < 0x100_0000;
    assert n / 0x100_0000 == b[0];
    assert n / 0x1_0000 == (b[0] as int) * 0x100 + b[1] as int;
    assert n / 0x100 == (b[0] as int) * 0x1_0000 + (b[1] as int) * 0x100 + b[2] as int;
  }

  /** `find_codesign_plist` indexes the four length bytes after the magic unchecked. */
  predicate LengthInBounds(buf: seq<u8>)
  {
    FirstMagic(buf).Some? ==> FirstMagic(buf).value + 8 <= |buf|
  }

  /** `find_codesign_plist`: the payload offset just past the 8-byte header, and the
      blob length stored after the first magic. */
  function FindCodesignPlist(buf: seq<u8>): (r: Option<(nat, u32)>)
    requires LengthInBounds(buf)
    ensures r.None? <==> forall j :: !MagicAt(buf, j)
    ensures r.Some? ==> r.value.0 >= 8 && MagicAt(buf, r.value.0 - 8)
    ensures r.Some? ==> forall j :: 0 <= j < r.value.0 - 8 ==> !MagicAt(buf, j)
    ensures r.Some? ==> r.value.0 <= |buf| && r.value.1 == BigEndian32(buf[r.value.0 - 4..r.value.0])
  {
    match FirstMagic(buf)
    case None => None
    case Some(offset) =>
      var idx := offset + 4;
      var length := (buf[idx] as int) * 0x100_0000 + (buf[idx + 1] as int) * 0x1_0000
        + (buf[idx + 2] as int) * 0x100 + buf[idx + 3] as int;
      Some((idx + 4, length))
  }

  /** The payload slice `[offset, offset + length - 8)` must be a valid range: the
      stored length covers at least the header and ends inside the buffer. */
  predicate PayloadInBounds(data: seq<u8>)
  {
    LengthInBounds(data) &&
    (FindCodesignPlist(data).Some? ==>
      var (offset, length) := FindCodesignPlist(data).value;
      length >= 8 && offset + length - 8 <= |data|)
  }

  /** The plist bytes sliced out in `extract_entitlements_plist`: the stored length
      counts the magic and itself, so the payload ends `length` bytes after the magic. */
  function EntitlementsPayload(data: seq<u8>): (r: Option<seq<u8>>)
    requires PayloadInBounds(data)
    ensures r.None? <==> forall j :: !MagicAt(data, j)
    ensures r.Some? ==>
      var m := FirstMagic(data).value;
      var length := BigEndian32(data[m + 4..m + 8]);
      |r.value| == length - 8 && r.value == data[m + 8..m + length]
  {
    match FindCodesignPlist(data)
    case None => None
    case Some((offset, length)) =>
      var m := FirstMagic(data).value;
      assert offset == m + 8 by {
        assert MagicAt(data, offset - 8) && MagicAt(data, m);
      }
      assert length == BigEndian32(data[m + 4..m + 8]);
      Some(data[offset..offset + length - 8])
  }

  /** A blob as it is laid out: magic, big-endian total length, payload. */
  function Blob(payload: seq<u8>): seq<u8>
    requires |payload| + 8 < 0x1_0000_0000
  {
    Magic + EncodeBigEndian32(|payload| + 8) + payload
  }

  /** Round trip: the payload of a blob placed after bytes that hold no earlier magic
      is recovered exactly, whatever follows it. */
  lemma PayloadOfBlob(pre: seq<u8>, payload: seq<u8>, post: seq<u8>)
    requires |payload| + 8 < 0x1_0000_0000
    requires forall i :: 0 <= i < |pre| ==> !MagicAt(pre + Blob(payload) + post, i)
    ensures PayloadInBounds(pre + Blob(payload) + post)
    ensures EntitlementsPayload(pre + Blob(payload) + post) == Some(payload)
  {
    var buf := pre + Blob(payload) + post;
    var m := |pre|;
    var length := |payload| + 8;
    assert buf[m..m + 4] == Magic;
    assert MagicAt(buf, m);
    assert FirstMagic(buf) == Some(m);
    assert buf[m + 4..m + 8] == EncodeBigEndian32(length);
    DecodeEncode(length);
    var blob := Blob(payload);
    assert |blob| == length && blob[8..] == payload;
    assert buf[m..m + length] == blob;
    assert buf[m + 8..m + length] == blob[8..];
  }
}
