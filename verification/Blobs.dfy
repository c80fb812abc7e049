/** The stored form of a table: magic, version, count, fixed-size slots, FNV-1a checksum. */
module Blobs {
  import opened Bytes
  import opened Checksums

  const VERSION: u16 := 2

  /** `count` entries of `size` bytes each, in `slots` places; some tables may not be stored empty. */
  datatype Layout = Layout(magic: u32, size: nat, slots: u16, emptyAllowed: bool)

  function BodyLen(l: Layout): nat { 8 + l.slots * l.size }

  function BlobLen(l: Layout): nat { BodyLen(l) + 4 }

  predicate EntriesFit(l: Layout, es: seq<seq<byte>>) {
    |es| <= l.slots && forall k :: 0 <= k < |es| ==> |es[k]| == l.size
  }

  function Concat(es: seq<seq<byte>>): seq<byte> {
    if es == [] then [] else Concat(es[..|es| - 1]) + es[|es| - 1]
  }

  function Header(l: Layout, count: u16): (h: seq<byte>)
    ensures |h| == 8
  {
    U32Le(l.magic) + U16Le(VERSION) + U16Le(count)
  }

  /** Everything the checksum covers: unused slots are zero. */
  function Body(l: Layout, es: seq<seq<byte>>): (b: seq<byte>)
    requires EntriesFit(l, es)
    ensures |b| == BodyLen(l)
  {
    ConcatLength(es, l.size);
    ProductGrows(|es|, l.slots, l.size);
    Header(l, |es|) + Concat(es) + Zeros(l.slots * l.size - |es| * l.size)
  }

  function Seal(body: seq<byte>): (b: seq<byte>)
    ensures |b| == |body| + 4
  {
    body + U32Le(Hash(FNV_OFFSET, body))
  }

  function Image(l: Layout, es: seq<seq<byte>>): (b: seq<byte>)
    requires EntriesFit(l, es)
    ensures |b| == BlobLen(l)
  {
    Seal(Body(l, es))
  }

  /** The stored count and raw slots, after the size, header and checksum checks. */
  function Open(l: Layout, blob: seq<byte>): (r: Result<seq<seq<byte>>>)
    ensures r.Ok? ==> EntriesFit(l, r.value)
  {
    if |blob| != BlobLen(l) then Err(InvalidSize)
    else
      var count := ReadU16Le(blob[6..8]);
      if ReadU32Le(blob[..4]) != l.magic || ReadU16Le(blob[4..6]) != VERSION
         || (count == 0 && !l.emptyAllowed) || count > l.slots then Err(InvalidVersion)
      else if ReadU32Le(blob[BodyLen(l)..]) != Hash(FNV_OFFSET, blob[..BodyLen(l)]) then Err(InvalidCrc)
      else Ok(SlotsOf(l, blob, count))
  }

  function SlotAt(l: Layout, blob: seq<byte>, k: nat): (e: seq<byte>)
    requires |blob| == BlobLen(l) && k < l.slots
    ensures |e| == l.size
  {
    ProductGrows(k + 1, l.slots, l.size);
    blob[8 + k * l.size..8 + (k + 1) * l.size]
  }

  function SlotsOf(l: Layout, blob: seq<byte>, count: nat): (es: seq<seq<byte>>)
    requires |blob| == BlobLen(l) && count <= l.slots
    ensures |es| == count && forall k :: 0 <= k < count ==> es[k] == SlotAt(l, blob, k)
  {
    if count == 0 then [] else SlotsOf(l, blob, count - 1) + [SlotAt(l, blob, count - 1)]
  }

  predicate HeaderRight(l: Layout, blob: seq<byte>) {
    && |blob| >= 8 && ReadU32Le(blob[0..4]) == l.magic && ReadU16Le(blob[4..6]) == 2
    && ReadU16Le(blob[6..8]) <= l.slots && (ReadU16Le(blob[6..8]) > 0 || l.emptyAllowed)
  }

  /** The last four bytes are the checksum of all the others. */
  predicate SumRight(blob: seq<byte>) {
    |blob| >= 4 && ReadU32Le(blob[|blob| - 4..]) == Hash(FNV_OFFSET, blob[..|blob| - 4])
  }

  /** What a blob is refused for: its size, then its header, then its checksum. */
  lemma OpenRefuses(l: Layout, blob: seq<byte>)
    ensures Open(l, blob) == Err(InvalidSize) <==> |blob| != BlobLen(l)
    ensures Open(l, blob) == Err(InvalidVersion) <==> |blob| == BlobLen(l) && !HeaderRight(l, blob)
    ensures Open(l, blob) == Err(InvalidCrc) <==> |blob| == BlobLen(l) && HeaderRight(l, blob) && !SumRight(blob)
  {
    hide Hash, ReadU16Le, ReadU32Le, BodyLen, SlotsOf;
    HeaderFits(l);
    assert |blob| == BlobLen(l) ==> BodyLen(l) == |blob| - 4;
  }

  lemma HeaderFits(l: Layout)
    ensures BodyLen(l) >= 8
  {
  }

  // ---- Layout arithmetic ----

  lemma ProductGrows(a: nat, b: nat, size: nat)
    requires a <= b
    ensures a * size <= b * size
  {
    assert b * size == a * size + (b - a) * size;
  }

  lemma {:induction false} ConcatLength(es: seq<seq<byte>>, size: nat)
    requires forall k :: 0 <= k < |es| ==> |es[k]| == size
    ensures |Concat(es)| == |es| * size
  {
    if es != [] {
      ConcatLength(es[..|es| - 1], size);
      assert |es| * size == (|es| - 1) * size + size;
    }
  }

  lemma {:induction false} ConcatSlot(es: seq<seq<byte>>, size: nat, k: nat)
    requires forall i :: 0 <= i < |es| ==> |es[i]| == size
    requires k < |es|
    ensures 0 <= k * size <= (k + 1) * size <= |Concat(es)|
    ensures Concat(es)[k * size..(k + 1) * size] == es[k]
  {
    var rest := es[..|es| - 1];
    ConcatLength(es, size);
    ConcatLength(rest, size);
    ProductGrows(k, k + 1, size);
    ProductGrows(k + 1, |es|, size);
    if k < |es| - 1 {
      ConcatSlot(rest, size, k);
      assert Concat(es)[k * size..(k + 1) * size] == Concat(rest)[k * size..(k + 1) * size];
    } else {
      assert (k + 1) * size == |Concat(es)| && k * size == |Concat(rest)|;
      assert Concat(es)[k * size..] == es[k];
    }
  }

  lemma BodySlot(l: Layout, es: seq<seq<byte>>, k: nat)
    requires EntriesFit(l, es) && k < |es|
    ensures SlotAt(l, Image(l, es), k) == es[k]
  {
    hide Hash, U32Le, Concat, Header;
    ConcatSlot(es, l.size, k);
    var c := Concat(es);
    var blob := Image(l, es);
    assert blob[8..8 + |c|] == c;
    assert blob[8 + k * l.size..8 + (k + 1) * l.size] == blob[8..8 + |c|][k * l.size..(k + 1) * l.size];
  }

  /** Opening a stored image gives back its entries, unless the layout refuses an empty table. */
  lemma OpenImage(l: Layout, es: seq<seq<byte>>)
    requires EntriesFit(l, es)
    ensures Open(l, Image(l, es)) == if es == [] && !l.emptyAllowed then Err(InvalidVersion) else Ok(es)
  {
    var blob := Image(l, es);
    var body := Body(l, es);
    assert blob[..BodyLen(l)] == body && blob[BodyLen(l)..] == U32Le(Hash(FNV_OFFSET, body));
    HeaderReads(l, es);
    WordRoundTrip(0, Hash(FNV_OFFSET, body));
    forall k | 0 <= k < |es| ensures SlotAt(l, blob, k) == es[k] { BodySlot(l, es, k); }
    assert SlotsOf(l, blob, |es|) == es;
  }

  lemma HeaderReads(l: Layout, es: seq<seq<byte>>)
    requires EntriesFit(l, es)
    ensures var blob := Image(l, es);
            ReadU32Le(blob[..4]) == l.magic && ReadU16Le(blob[4..6]) == VERSION && ReadU16Le(blob[6..8]) == |es|
  {
    var blob, h := Image(l, es), Header(l, |es|);
    assert blob[..8] == h;
    assert blob[..4] == h[..4] == U32Le(l.magic);
    assert blob[4..6] == h[4..6] == U16Le(VERSION);
    assert blob[6..8] == h[6..8] == U16Le(|es|);
    WordRoundTrip(VERSION, l.magic);
    WordRoundTrip(|es|, 0);
  }

  /** A blob that differs from a stored one in exactly one byte is refused, wherever the byte is. */
  lemma OneByteCorruptionRefused(l: Layout, es: seq<seq<byte>>, blob: seq<byte>, i: nat)
    requires EntriesFit(l, es) && DifferAt(Image(l, es), blob, i)
    ensures Open(l, blob).Err?
  {
    var image, n := Image(l, es), BodyLen(l);
    assert image[..n] == Body(l, es) && image[n..] == U32Le(Hash(FNV_OFFSET, image[..n]));
    if i < n {
      assert DifferAt(image[..n], blob[..n], i);
      OneByteChangesHash(FNV_OFFSET, image[..n], blob[..n], i);
      assert blob[n..] == image[n..];
      WordRoundTrip(0, Hash(FNV_OFFSET, image[..n]));
    } else {
      assert blob[..n] == image[..n];
      assert blob[n..][i - n] != image[n..][i - n];
    }
  }

  lemma HashFields(h: u32, a: seq<byte>, b: seq<byte>, c: seq<byte>, d: seq<byte>)
    ensures Hash(Hash(Hash(Hash(h, a), b), c), d) == Hash(h, a + b + c + d)
  {
    HashConcat(h, a, b);
    HashConcat(h, a + b, c);
    HashConcat(h, a + b + c, d);
  }

  /** The checksum as the device store computes it: one update per field. */
  method ChecksumByField(magic: seq<byte>, version: seq<byte>, count: seq<byte>, entries: seq<byte>) returns (h: u32)
    ensures h == Hash(FNV_OFFSET, magic + version + count + entries)
  {
    h := Update(FNV_OFFSET, magic);
    h := Update(h, version);
    h := Update(h, count);
    h := Update(h, entries);
    HashFields(FNV_OFFSET, magic, version, count, entries);
  }
}
