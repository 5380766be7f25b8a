/**
 * The gzip member header (section 2.3.1 of RFC 1952) as the header cleaner
 * reads and rewrites it: a fixed 10-byte part (ID1, ID2, CM, FLG, MTIME, XFL,
 * OS) followed by the optional FEXTRA, FNAME, FCOMMENT and FHCRC fields.
 * A file is its byte sequence; a read cursor is an index into it, and a read
 * past the end yields fewer bytes (none at or after the end), as Python's
 * file objects do after an unchecked `seek`.
 */
module GzHeader {
  import opened Wrappers

  type Bytes = seq<bv8>

  // FLG bits
  const FHCRC: bv8 := 0x02
  const FEXTRA: bv8 := 0x04
  const FNAME: bv8 := 0x08
  const FCOMMENT: bv8 := 0x10

  /** Size of the chunks in which the compressed payload is copied. */
  const BUF: nat := 1024 * 1024

  predicate Has(flg: bv8, bit: bv8) {
    flg & bit != 0
  }

  function Min(a: int, b: int): int {
    if a <= b then a else b
  }

  /** Little-endian unsigned 16-bit value (`struct.unpack("<H")`). */
  function LE16(lo: bv8, hi: bv8): nat {
    lo as nat + 0x100 * hi as nat
  }

  /** Little-endian unsigned 32-bit value (`struct.unpack("<I")`). */
  function LE32(b: Bytes): nat
    requires |b| == 4
  {
    b[0] as nat + 0x100 * b[1] as nat + 0x1_0000 * b[2] as nat + 0x100_0000 * b[3] as nat
  }

  /** The bytes between positions `a` and `b`, both clipped to the end of the file. */
  function Seg(data: Bytes, a: nat, b: nat): Bytes
    requires a <= b
  {
    data[Min(a, |data|)..Min(b, |data|)]
  }

  /** `seek(pos)` followed by `read(n)`. */
  function Read(data: Bytes, pos: nat, n: nat): Bytes {
    Seg(data, pos, pos + n)
  }

  /** `seek(pos)` followed by reading to the end of the file. */
  function Tail(data: Bytes, pos: nat): Bytes {
    data[Min(pos, |data|)..]
  }

  /** Where each field of the header lies; absent fields are `None`. */
  datatype Offsets = Offsets(
    extraLenOff: Option<nat>, extraEnd: Option<nat>,
    fnameStart: Option<nat>, fnameEnd: Option<nat>,
    fcommentStart: Option<nat>, fcommentEnd: Option<nat>,
    fhcrcOff: Option<nat>,
    payloadStart: nat)

  /** A parsed header: the fixed 10 bytes, FLG, MTIME and the field offsets. */
  datatype Header = Header(first10: Bytes, flg: bv8, mtime: nat, off: Offsets)

  datatype ParseError = NotGzipMember | TruncatedExtraLength | TruncatedName | TruncatedComment

  /** The position just past the first zero byte at or after `i`: the end of a C string. */
  function CStringEnd(data: Bytes, i: nat): (r: Option<nat>)
    ensures r.Some? ==> i < r.value <= |data| && data[r.value - 1] == 0
    ensures r.Some? ==> forall k :: i <= k < r.value - 1 ==> data[k] != 0
    ensures r.None? ==> forall k :: i <= k < |data| ==> data[k] != 0
    decreases |data| - i
  {
    if i >= |data| then None
    else if data[i] == 0 then Some(i + 1)
    else CStringEnd(data, i + 1)
  }

  /** Bytes 0-2 hold ID1 = 0x1f, ID2 = 0x8b and CM = 8 (deflate). */
  predicate GoodMagic(data: Bytes) {
    |data| >= 10 && data[0] == 0x1f && data[1] == 0x8b && data[2] == 0x08
  }

  /** Where the FEXTRA field ends: after XLEN and the XLEN bytes it announces. */
  function AfterExtra(data: Bytes, flg: bv8): nat
    requires |data| >= 12 || !Has(flg, FEXTRA)
  {
    if Has(flg, FEXTRA) then 12 + LE16(data[10], data[11]) else 10
  }

  /** Where an optional C-string field starting at `at` ends. */
  function AfterCString(data: Bytes, present: bool, at: nat): Option<nat> {
    if present then CStringEnd(data, at) else Some(at)
  }

  /** The header, given where the FEXTRA, FNAME and FCOMMENT fields end. */
  function Assemble(data: Bytes, e: nat, n: nat, c: nat): Header
    requires |data| >= 10
  {
    var flg := data[3];
    Header(data[..10], flg, LE32(data[4..8]), Offsets(
      if Has(flg, FEXTRA) then Some(10) else None,
      if Has(flg, FEXTRA) then Some(e) else None,
      if Has(flg, FNAME) then Some(e) else None,
      if Has(flg, FNAME) then Some(n) else None,
      if Has(flg, FCOMMENT) then Some(n) else None,
      if Has(flg, FCOMMENT) then Some(c) else None,
      if Has(flg, FHCRC) then Some(c) else None,
      if Has(flg, FHCRC) then c + 2 else c))
  }

  /** The header of the gzip member at the start of `data`, or why there is none. */
  function Parse(data: Bytes): Result<Header, ParseError> {
    if !GoodMagic(data) then Failure(NotGzipMember)
    else if Has(data[3], FEXTRA) && |data| < 12 then Failure(TruncatedExtraLength)
    else
      var e := AfterExtra(data, data[3]);
      var n := AfterCString(data, Has(data[3], FNAME), e);
      if n.None? then Failure(TruncatedName)
      else
        var c := AfterCString(data, Has(data[3], FCOMMENT), n.value);
        if c.None? then Failure(TruncatedComment)
        else Success(Assemble(data, e, n.value, c.value))
  }

  /** End of the FEXTRA field, or 10 when there is none. */
  function ExtraEnd(h: Header): nat {
    if h.off.extraEnd.Some? then h.off.extraEnd.value else 10
  }

  /** End of the FNAME field, or where it would start. */
  function NameEnd(h: Header): nat {
    if h.off.fnameEnd.Some? then h.off.fnameEnd.value else ExtraEnd(h)
  }

  /** End of the FCOMMENT field, or where it would start. */
  function CommentEnd(h: Header): nat {
    if h.off.fcommentEnd.Some? then h.off.fcommentEnd.value else NameEnd(h)
  }

  /** The fixed header with FNAME and FHCRC cleared and MTIME zeroed. */
  function NewFixed(first10: Bytes, flg: bv8): Bytes
    requires |first10| == 10
  {
    first10[..3] + [flg & !FNAME & !FHCRC] + [0, 0, 0, 0] + first10[8..]
  }

  /**
   * The rewritten member: the patched fixed header, FEXTRA and FCOMMENT as
   * read, then everything from the end of the header on.
   */
  function Rewritten(data: Bytes, h: Header): Bytes
    requires Parse(data) == Success(h)
  {
    NewFixed(h.first10, h.flg)
    + (if Has(h.flg, FEXTRA) then Read(data, 10, ExtraEnd(h) - 10) else [])
    + (if Has(h.flg, FCOMMENT) then Read(data, NameEnd(h), CommentEnd(h) - NameEnd(h)) else [])
    + Tail(data, h.off.payloadStart)
  }

  /** What `needs_cleaning` reports about a file. */
  datatype Needs = Needs(mtime: bool, name: bool, hcrc: bool, flg: bv8, mtimeValue: nat)

  function NeedsCleaning(data: Bytes): Result<Needs, ParseError> {
    match Parse(data)
    case Failure(e) => Failure(e)
    case Success(h) => Success(Needs(h.mtime != 0, Has(h.flg, FNAME), Has(h.flg, FHCRC), h.flg, h.mtime))
  }

  /** The sweep cleans a file exactly when this holds. */
  predicate Dirty(n: Needs) {
    n.mtime || n.name
  }

  /** MTIME is zero and there is no FNAME field: nothing left for the sweep to clean. */
  predicate HeaderClean(data: Bytes) {
    NeedsCleaning(data).Success? && !Dirty(NeedsCleaning(data).value)
  }

  // ---------------------------------------------------------------- lemmas

  /**
   * What a successful parse found: the fixed fields, and the optional fields
   * laid end to end from offset 10 in RFC 1952 order, each present exactly
   * when its FLG bit is set; FNAME and FCOMMENT end just past their first
   * zero byte and FHCRC takes the two bytes after them.
   */
  lemma ParseShape(data: Bytes, h: Header)
    requires Parse(data) == Success(h)
    ensures GoodMagic(data) && h.first10 == data[..10] && h.flg == data[3]
    ensures h.mtime == LE32(data[4..8])
    ensures 10 <= ExtraEnd(h) <= NameEnd(h) <= CommentEnd(h) <= h.off.payloadStart
    ensures h.off.extraLenOff == (if Has(h.flg, FEXTRA) then Some(10) else None)
    ensures h.off.extraEnd == (if Has(h.flg, FEXTRA) then Some(ExtraEnd(h)) else None)
    ensures h.off.fnameStart == (if Has(h.flg, FNAME) then Some(ExtraEnd(h)) else None)
    ensures h.off.fnameEnd == (if Has(h.flg, FNAME) then Some(NameEnd(h)) else None)
    ensures h.off.fcommentStart == (if Has(h.flg, FCOMMENT) then Some(NameEnd(h)) else None)
    ensures h.off.fcommentEnd == (if Has(h.flg, FCOMMENT) then Some(CommentEnd(h)) else None)
    ensures h.off.fhcrcOff == (if Has(h.flg, FHCRC) then Some(CommentEnd(h)) else None)
    ensures Has(h.flg, FEXTRA) ==> |data| >= 12 && ExtraEnd(h) == 12 + LE16(data[10], data[11])
    ensures !Has(h.flg, FEXTRA) ==> ExtraEnd(h) == 10
    ensures Has(h.flg, FNAME) ==> CStringEnd(data, ExtraEnd(h)) == Some(NameEnd(h))
    ensures !Has(h.flg, FNAME) ==> NameEnd(h) == ExtraEnd(h)
    ensures Has(h.flg, FCOMMENT) ==> CStringEnd(data, NameEnd(h)) == Some(CommentEnd(h))
    ensures !Has(h.flg, FCOMMENT) ==> CommentEnd(h) == NameEnd(h)
    ensures h.off.payloadStart == CommentEnd(h) + (if Has(h.flg, FHCRC) then 2 else 0)
  {
    ParseFixed(data, h);
    ParseLayout(data, h);
  }

  /** The fixed fields of a parsed header, as read from bytes 0-9. */
  lemma ParseFixed(data: Bytes, h: Header)
    requires Parse(data) == Success(h)
    ensures GoodMagic(data) && h.first10 == data[..10] && h.flg == data[3]
    ensures h.mtime == LE32(data[4..8])
  {
  }

  /** Where the optional fields of a parsed header end, in terms of the bytes of the file. */
  lemma ParseLayout(data: Bytes, h: Header)
    requires Parse(data) == Success(h)
    ensures GoodMagic(data) && h.flg == data[3]
    ensures 10 <= ExtraEnd(h) <= NameEnd(h) <= CommentEnd(h) <= h.off.payloadStart
    ensures Has(h.flg, FEXTRA) ==> |data| >= 12 && ExtraEnd(h) == 12 + LE16(data[10], data[11])
    ensures !Has(h.flg, FEXTRA) ==> ExtraEnd(h) == 10
    ensures Has(h.flg, FNAME) ==> CStringEnd(data, ExtraEnd(h)) == Some(NameEnd(h))
    ensures !Has(h.flg, FNAME) ==> NameEnd(h) == ExtraEnd(h)
    ensures Has(h.flg, FCOMMENT) ==> CStringEnd(data, NameEnd(h)) == Some(CommentEnd(h))
    ensures !Has(h.flg, FCOMMENT) ==> CommentEnd(h) == NameEnd(h)
    ensures h.off.payloadStart == CommentEnd(h) + (if Has(h.flg, FHCRC) then 2 else 0)
  {
  }

  lemma RewrittenParts(data: Bytes, h: Header, fixed: Bytes, extra: Bytes, comment: Bytes, rest: Bytes)
    requires Parse(data) == Success(h)
    requires fixed == NewFixed(h.first10, h.flg)
    requires extra == if Has(h.flg, FEXTRA) then Read(data, 10, ExtraEnd(h) - 10) else []
    requires comment == if Has(h.flg, FCOMMENT) then Read(data, NameEnd(h), CommentEnd(h) - NameEnd(h)) else []
    requires rest == Tail(data, h.off.payloadStart)
    ensures Rewritten(data, h) == fixed + extra + comment + rest
  {
  }

  /** The offsets `clean_file` reads the copied fields and the payload from. */
  lemma FieldOffsets(data: Bytes, h: Header)
    requires Parse(data) == Success(h)
    ensures |h.first10| == 10 && 10 <= ExtraEnd(h) <= NameEnd(h) <= CommentEnd(h)
    ensures Has(h.flg, FEXTRA) ==> h.off.extraLenOff == Some(10) && h.off.extraEnd == Some(ExtraEnd(h))
    ensures Has(h.flg, FCOMMENT) ==> h.off.fcommentStart == Some(NameEnd(h)) && h.off.fcommentEnd == Some(CommentEnd(h))
    ensures Has(h.flg, FHCRC) && h.off.fhcrcOff.Some? ==> h.off.fhcrcOff.value + 2 == h.off.payloadStart
  {
    ParseShape(data, h);
  }

  /** No zero byte at or after position `i`. */
  predicate NoZeroFrom(data: Bytes, i: nat) {
    forall k :: i <= k < |data| ==> data[k] != 0
  }

  /** Exactly when each error is raised. */
  lemma ParseErrors(data: Bytes)
    ensures Parse(data) == Failure(NotGzipMember) <==> !GoodMagic(data)
    ensures Parse(data) == Failure(TruncatedExtraLength) <==>
      GoodMagic(data) && Has(data[3], FEXTRA) && |data| < 12
    ensures Parse(data) == Failure(TruncatedName) <==>
      GoodMagic(data) && (Has(data[3], FEXTRA) ==> |data| >= 12) &&
      Has(data[3], FNAME) && NoZeroFrom(data, AfterExtra(data, data[3]))
    ensures Parse(data) == Failure(TruncatedComment) <==>
      GoodMagic(data) && (Has(data[3], FEXTRA) ==> |data| >= 12) &&
      var e := AfterExtra(data, data[3]);
      (Has(data[3], FNAME) ==> !NoZeroFrom(data, e)) &&
      Has(data[3], FCOMMENT) && NoZeroFrom(data, AfterCString(data, Has(data[3], FNAME), e).value)
  {
    if GoodMagic(data) && (Has(data[3], FEXTRA) ==> |data| >= 12) {
      var e := AfterExtra(data, data[3]);
      if Has(data[3], FNAME) && !NoZeroFrom(data, e) {
        var k :| e <= k < |data| && data[k] == 0;
        assert CStringEnd(data, e).Some?;
      }
      var n := AfterCString(data, Has(data[3], FNAME), e);
      if n.Some? && Has(data[3], FCOMMENT) && !NoZeroFrom(data, n.value) {
        var k :| n.value <= k < |data| && data[k] == 0;
        assert CStringEnd(data, n.value).Some?;
      }
    }
  }

  /**
   * Without FNAME and FCOMMENT, a header with good magic always parses, and
   * its payload starts after the XLEN bytes that XLEN announces and the two
   * FHCRC bytes, whether or not the file holds them: an XLEN that runs past
   * the end of the file, or FHCRC bytes that are missing, go undetected.
   */
  lemma TruncationUndetected(data: Bytes)
    requires GoodMagic(data) && (|data| >= 12 || !Has(data[3], FEXTRA))
    requires !Has(data[3], FNAME) && !Has(data[3], FCOMMENT)
    ensures Parse(data).Success?
    ensures Parse(data).value.off.payloadStart ==
      (if Has(data[3], FEXTRA) then 12 + LE16(data[10], data[11]) else 10) + (if Has(data[3], FHCRC) then 2 else 0)
  {
  }

  /** Two headers whose payload starts beyond the end of the file. */
  lemma TruncationExamples()
    ensures var d: Bytes := [0x1f, 0x8b, 0x08, FEXTRA, 0, 0, 0, 0, 0, 3, 5, 0];
      Parse(d).Success? && Parse(d).value.off.payloadStart == 17 > |d|
    ensures var d: Bytes := [0x1f, 0x8b, 0x08, FHCRC, 0, 0, 0, 0, 0, 3];
      Parse(d).Success? && Parse(d).value.off.payloadStart == 12 > |d|
  {
    var d1: Bytes := [0x1f, 0x8b, 0x08, FEXTRA, 0, 0, 0, 0, 0, 3, 5, 0];
    assert d1[3] == FEXTRA && !Has(d1[3], FNAME) && !Has(d1[3], FCOMMENT) && !Has(d1[3], FHCRC);
    TruncationUndetected(d1);
    var d2: Bytes := [0x1f, 0x8b, 0x08, FHCRC, 0, 0, 0, 0, 0, 3];
    assert d2[3] == FHCRC && !Has(d2[3], FNAME) && !Has(d2[3], FCOMMENT) && !Has(d2[3], FEXTRA);
    TruncationUndetected(d2);
  }

  /** MTIME is zero exactly when its four bytes are. */
  lemma LE32Zero(b: Bytes)
    requires |b| == 4
    ensures LE32(b) == 0 <==> b == [0, 0, 0, 0]
  {
    if LE32(b) == 0 {
      assert b[0] == 0 && b[1] == 0 && b[2] == 0 && b[3] == 0;
    }
  }

  /** `needs_cleaning` reports a non-zero MTIME, the FNAME bit and the FHCRC bit, and nothing else. */
  lemma NeedsCleaningExactly(data: Bytes)
    ensures NeedsCleaning(data).Success? <==> Parse(data).Success?
    ensures NeedsCleaning(data).Success? ==>
      var n := NeedsCleaning(data).value;
      (n.mtime <==> data[4..8] != [0, 0, 0, 0]) &&
      (n.name <==> data[3] & FNAME != 0) &&
      (n.hcrc <==> data[3] & FHCRC != 0) &&
      n.flg == data[3] && n.mtimeValue == LE32(data[4..8])
  {
    if Parse(data).Success? {
      ParseShape(data, Parse(data).value);
      LE32Zero(data[4..8]);
    }
  }

  /** Clearing FNAME and FHCRC keeps every other bit of FLG. */
  lemma CleanedFlags(f: bv8)
    ensures var g := f & !FNAME & !FHCRC;
      !Has(g, FNAME) && !Has(g, FHCRC) &&
      Has(g, FEXTRA) == Has(f, FEXTRA) && Has(g, FCOMMENT) == Has(f, FCOMMENT) &&
      g | FNAME | FHCRC == f | FNAME | FHCRC &&
      g & !FNAME & !FHCRC == g
  {
  }

  /**
   * The rewritten fixed header: ID1, ID2 and CM, then FLG without FNAME and
   * FHCRC, MTIME zero, and XFL and OS as they were.
   */
  lemma RewriteFixedHeader(data: Bytes, h: Header)
    requires Parse(data) == Success(h)
    ensures var out := Rewritten(data, h);
      |out| >= 10 && out[..3] == data[..3] && out[3] == data[3] & !FNAME & !FHCRC &&
      out[4..8] == [0, 0, 0, 0] && out[8..10] == data[8..10]
  {
    ParseShape(data, h);
    RewrittenParts(data, h, NewFixed(h.first10, h.flg),
      if Has(h.flg, FEXTRA) then Read(data, 10, ExtraEnd(h) - 10) else [],
      if Has(h.flg, FCOMMENT) then Read(data, NameEnd(h), CommentEnd(h) - NameEnd(h)) else [],
      Tail(data, h.off.payloadStart));
  }

  /** Consecutive clipped segments put the file back together. */
  lemma SegChain(data: Bytes, e: nat, n: nat, c: nat, p: nat)
    requires |data| >= 10 && 10 <= e <= n <= c <= p
    ensures data == data[..10] + Seg(data, 10, e) + Seg(data, e, n) + Seg(data, n, c) + Seg(data, c, p) + Tail(data, p)
  {
    assert data[..10] + Seg(data, 10, e) == data[..Min(e, |data|)];
    assert data[..Min(e, |data|)] + Seg(data, e, n) == data[..Min(n, |data|)];
    assert data[..Min(n, |data|)] + Seg(data, n, c) == data[..Min(c, |data|)];
    assert data[..Min(c, |data|)] + Seg(data, c, p) == data[..Min(p, |data|)];
    assert data[..Min(p, |data|)] + Tail(data, p) == data;
  }

  /** The rewritten member in terms of the field boundaries. */
  lemma RewrittenSegs(data: Bytes, h: Header)
    requires Parse(data) == Success(h)
    ensures |data| >= 10 && 10 <= ExtraEnd(h) <= NameEnd(h) <= CommentEnd(h) <= h.off.payloadStart
    ensures Rewritten(data, h) == NewFixed(data[..10], data[3]) + Seg(data, 10, ExtraEnd(h))
      + Seg(data, NameEnd(h), CommentEnd(h)) + Tail(data, h.off.payloadStart)
  {
    assert GoodMagic(data) && h.first10 == data[..10] && h.flg == data[3] &&
      10 <= ExtraEnd(h) <= NameEnd(h) <= CommentEnd(h) <= h.off.payloadStart &&
      (!Has(h.flg, FEXTRA) ==> ExtraEnd(h) == 10) &&
      (!Has(h.flg, FCOMMENT) ==> CommentEnd(h) == NameEnd(h)) by { ParseShape(data, h); }
    RewrittenParts(data, h, NewFixed(h.first10, h.flg),
      if Has(h.flg, FEXTRA) then Read(data, 10, ExtraEnd(h) - 10) else [],
      if Has(h.flg, FCOMMENT) then Read(data, NameEnd(h), CommentEnd(h) - NameEnd(h)) else [],
      Tail(data, h.off.payloadStart));
  }

  /**
   * The input is the fixed header, FEXTRA, FNAME, FCOMMENT, FHCRC and the
   * rest, end to end; the output is the patched fixed header, FEXTRA,
   * FCOMMENT and the rest: the FNAME and FHCRC bytes are gone and every
   * other byte is kept in order.
   */
  lemma RewriteLayout(data: Bytes, h: Header)
    requires Parse(data) == Success(h)
    ensures 10 <= ExtraEnd(h) <= NameEnd(h) <= CommentEnd(h) <= h.off.payloadStart
    ensures var e, n, c, p := ExtraEnd(h), NameEnd(h), CommentEnd(h), h.off.payloadStart;
      data == data[..10] + Seg(data, 10, e) + Seg(data, e, n) + Seg(data, n, c) + Seg(data, c, p) + Tail(data, p) &&
      Rewritten(data, h) == NewFixed(data[..10], data[3]) + Seg(data, 10, e) + Seg(data, n, c) + Tail(data, p) &&
      |Rewritten(data, h)| == |data| - |Seg(data, e, n)| - |Seg(data, c, p)|
  {
    RewrittenSegs(data, h);
    SegChain(data, ExtraEnd(h), NameEnd(h), CommentEnd(h), h.off.payloadStart);
  }

  /** A C string ending at `j`: its end is found from `i`. */
  lemma CStringEndAt(d: Bytes, i: nat, j: nat)
    requires i < j <= |d| && d[j - 1] == 0
    requires forall k :: i <= k < j - 1 ==> d[k] != 0
    ensures CStringEnd(d, i) == Some(j)
  {
  }

  /** The same C string copied elsewhere ends at the same distance from its start. */
  lemma CStringEndMoved(d1: Bytes, i1: nat, d2: Bytes, i2: nat, len: nat)
    requires CStringEnd(d1, i1) == Some(i1 + len)
    requires i2 + len <= |d2| && d2[i2..i2 + len] == d1[i1..i1 + len]
    ensures CStringEnd(d2, i2) == Some(i2 + len)
  {
    forall k | i2 <= k < i2 + len
      ensures d2[k] == d1[i1 + (k - i2)]
    {
      assert d2[k] == d2[i2..i2 + len][k - i2];
    }
    CStringEndAt(d2, i2, i2 + len);
  }

  /** A header with neither FNAME nor FHCRC, whose FEXTRA ends at `e` and FCOMMENT at `c`. */
  lemma ParseCleanHeader(out: Bytes, e: nat, c: nat)
    requires GoodMagic(out) && !Has(out[3], FNAME) && !Has(out[3], FHCRC)
    requires Has(out[3], FEXTRA) ==> |out| >= 12
    requires AfterExtra(out, out[3]) == e
    requires Has(out[3], FCOMMENT) ==> CStringEnd(out, e) == Some(c)
    requires !Has(out[3], FCOMMENT) ==> c == e
    ensures Parse(out) == Success(Assemble(out, e, e, c))
  {
  }

  /** Pieces laid end to end, read back by clipped segments. */
  lemma SegsOfConcat(out: Bytes, fixed: Bytes, x: Bytes, cs: Bytes, rest: Bytes, e: nat)
    requires out == fixed + x + cs + rest && |fixed| == 10
    requires |fixed + x| == e || (cs == [] && rest == [] && |fixed + x| < e)
    ensures Seg(out, 10, e) == x && Seg(out, e, e + |cs|) == cs && Tail(out, e + |cs|) == rest
    ensures out[..10] == fixed
  {
  }

  /** The fixed header and XLEN of a file that starts with the patched fixed header and the FEXTRA bytes. */
  lemma CopiedFixed(data: Bytes, out: Bytes, e: nat)
    requires GoodMagic(data) && 10 <= e
    requires Has(data[3], FEXTRA) ==> |data| >= 12 && e == 12 + LE16(data[10], data[11])
    requires !Has(data[3], FEXTRA) ==> e == 10
    requires |out| >= 10 && out[..10] == NewFixed(data[..10], data[3])
    requires Seg(out, 10, e) == Seg(data, 10, e)
    ensures GoodMagic(out) && out[3] == data[3] & !FNAME & !FHCRC
    ensures Has(out[3], FEXTRA) == Has(data[3], FEXTRA)
    ensures Has(out[3], FCOMMENT) == Has(data[3], FCOMMENT)
    ensures !Has(out[3], FNAME) && !Has(out[3], FHCRC)
    ensures Has(out[3], FEXTRA) ==> |out| >= 12
    ensures AfterExtra(out, out[3]) == e
  {
    CleanedFlags(data[3]);
    assert out[..10][3] == out[3];
    if Has(data[3], FEXTRA) {
      assert out[10] == Seg(out, 10, e)[0] == data[10];
      assert out[11] == Seg(out, 10, e)[1] == data[11];
      assert LE16(out[10], out[11]) == LE16(data[10], data[11]);
      assert AfterExtra(out, out[3]) == 12 + LE16(out[10], out[11]);
    } else {
      assert AfterExtra(out, out[3]) == 10;
    }
  }

  /**
   * A file whose first ten bytes are the patched fixed header, followed by
   * the FEXTRA bytes of `data` and then its FCOMMENT bytes, parses as a
   * header without FNAME and FHCRC.
   */
  lemma ParseCopied(data: Bytes, out: Bytes, e: nat, n: nat, c: nat)
    requires GoodMagic(data) && 10 <= e <= n <= c
    requires Has(data[3], FEXTRA) ==> |data| >= 12 && e == 12 + LE16(data[10], data[11])
    requires !Has(data[3], FEXTRA) ==> e == 10
    requires Has(data[3], FCOMMENT) ==> CStringEnd(data, n) == Some(c)
    requires !Has(data[3], FCOMMENT) ==> c == n
    requires |out| >= 10 && out[..10] == NewFixed(data[..10], data[3])
    requires Seg(out, 10, e) == Seg(data, 10, e)
    requires Has(data[3], FCOMMENT) ==> e + (c - n) <= |out| && out[e..e + (c - n)] == data[n..c]
    ensures Parse(out) == Success(Assemble(out, e, e, e + (c - n)))
  {
    CopiedHeader(data, out, e, n, c);
    ParseCleanHeader(out, e, e + (c - n));
  }

  /** The copied header has the shape `ParseCleanHeader` reads. */
  lemma CopiedHeader(data: Bytes, out: Bytes, e: nat, n: nat, c: nat)
    requires GoodMagic(data) && 10 <= e <= n <= c
    requires Has(data[3], FEXTRA) ==> |data| >= 12 && e == 12 + LE16(data[10], data[11])
    requires !Has(data[3], FEXTRA) ==> e == 10
    requires Has(data[3], FCOMMENT) ==> CStringEnd(data, n) == Some(c)
    requires !Has(data[3], FCOMMENT) ==> c == n
    requires |out| >= 10 && out[..10] == NewFixed(data[..10], data[3])
    requires Seg(out, 10, e) == Seg(data, 10, e)
    requires Has(data[3], FCOMMENT) ==> e + (c - n) <= |out| && out[e..e + (c - n)] == data[n..c]
    ensures GoodMagic(out) && !Has(out[3], FNAME) && !Has(out[3], FHCRC)
    ensures Has(out[3], FEXTRA) ==> |out| >= 12
    ensures AfterExtra(out, out[3]) == e
    ensures Has(out[3], FCOMMENT) ==> CStringEnd(out, e) == Some(e + (c - n))
    ensures !Has(out[3], FCOMMENT) ==> e + (c - n) == e
  {
    CopiedFixed(data, out, e);
    CommentCopied(data, out, e, n, c);
  }

  /** The copied FCOMMENT field ends where it ended in `data`, moved to start at `e`. */
  lemma CommentCopied(data: Bytes, out: Bytes, e: nat, n: nat, c: nat)
    requires |data| >= 10 && n <= c
    requires Has(data[3], FCOMMENT) ==> CStringEnd(data, n) == Some(c)
    requires Has(data[3], FCOMMENT) ==> e + (c - n) <= |out| && out[e..e + (c - n)] == data[n..c]
    ensures Has(data[3], FCOMMENT) ==> CStringEnd(out, e) == Some(e + (c - n))
  {
    if Has(data[3], FCOMMENT) {
      var len := c - n;
      assert n + len == c;
      CStringEndMoved(data, n, out, e, len);
    }
  }

  /**
   * The patched fixed header, the FEXTRA bytes, the FCOMMENT bytes and the
   * rest, laid end to end, hold those bytes where `ParseCopied` looks.
   */
  lemma PiecesCopied(data: Bytes, e: nat, n: nat, c: nat, rest: Bytes, out: Bytes)
    requires GoodMagic(data) && 10 <= e <= n <= c
    requires Has(data[3], FEXTRA) ==> |data| >= 12 && e == 12 + LE16(data[10], data[11])
    requires !Has(data[3], FEXTRA) ==> e == 10
    requires Has(data[3], FEXTRA) && e > |data| ==> !Has(data[3], FCOMMENT) && c == n && rest == []
    requires Has(data[3], FCOMMENT) ==> CStringEnd(data, n) == Some(c)
    requires !Has(data[3], FCOMMENT) ==> c == n
    requires out == NewFixed(data[..10], data[3]) + Seg(data, 10, e) + Seg(data, n, c) + rest
    ensures |Seg(data, n, c)| == c - n
    ensures |out| >= 10 && out[..10] == NewFixed(data[..10], data[3])
    ensures Seg(out, 10, e) == Seg(data, 10, e)
    ensures Has(data[3], FCOMMENT) ==> e + (c - n) <= |out| && out[e..e + (c - n)] == data[n..c]
  {
    var fixed, x, cs := NewFixed(data[..10], data[3]), Seg(data, 10, e), Seg(data, n, c);
    var truncated := Has(data[3], FEXTRA) && e > |data|;
    assert |fixed| == 10;
    assert |cs| == c - n by {
      if Has(data[3], FCOMMENT) { assert c <= |data|; }
    }
    assert truncated ==> cs == [] && rest == [] && |fixed + x| < e;
    assert !truncated ==> |fixed + x| == e;
    SegsOfConcat(out, fixed, x, cs, rest, e);
    if Has(data[3], FCOMMENT) {
      assert c <= |data| && cs == data[n..c];
      assert out[e..e + |cs|] == cs;
    }
  }

  /** The header found in a rewritten member: MTIME 0, no FNAME, no FHCRC. */
  lemma ParseRewritten(data: Bytes, h: Header)
    requires Parse(data) == Success(h)
    ensures var out := Rewritten(data, h);
      var e, cs := ExtraEnd(h), Seg(data, NameEnd(h), CommentEnd(h));
      |out| >= 10 && out[..10] == NewFixed(data[..10], data[3]) &&
      Parse(out) == Success(Assemble(out, e, e, e + |cs|))
  {
    RewrittenCopies(data, h);
    ParseCopied(data, Rewritten(data, h), ExtraEnd(h), NameEnd(h), CommentEnd(h));
  }

  /** The rewritten member holds the pieces of `data` where `ParseCopied` looks for them. */
  lemma RewrittenCopies(data: Bytes, h: Header)
    requires Parse(data) == Success(h)
    ensures var out, e, n, c := Rewritten(data, h), ExtraEnd(h), NameEnd(h), CommentEnd(h);
      GoodMagic(data) && 10 <= e <= n <= c &&
      (Has(data[3], FEXTRA) ==> |data| >= 12 && e == 12 + LE16(data[10], data[11])) &&
      (!Has(data[3], FEXTRA) ==> e == 10) &&
      (Has(data[3], FCOMMENT) ==> CStringEnd(data, n) == Some(c)) &&
      (!Has(data[3], FCOMMENT) ==> c == n) &&
      |Seg(data, n, c)| == c - n &&
      |out| >= 10 && out[..10] == NewFixed(data[..10], data[3]) &&
      Seg(out, 10, e) == Seg(data, 10, e) &&
      (Has(data[3], FCOMMENT) ==> e + (c - n) <= |out| && out[e..e + (c - n)] == data[n..c])
  {
    var f := data[3];
    var e, n, c, p := ExtraEnd(h), NameEnd(h), CommentEnd(h), h.off.payloadStart;
    RewrittenSegs(data, h);
    assert GoodMagic(data) && 10 <= e <= n <= c <= p &&
      (Has(f, FEXTRA) ==> |data| >= 12 && e == 12 + LE16(data[10], data[11])) &&
      (!Has(f, FEXTRA) ==> e == 10) &&
      (Has(f, FEXTRA) && e > |data| ==> !Has(f, FNAME) && !Has(f, FCOMMENT) && c == n) &&
      (!Has(f, FCOMMENT) ==> c == n) &&
      (Has(f, FCOMMENT) ==> CStringEnd(data, n) == Some(c)) by { ParseLayout(data, h); }
    PiecesCopied(data, e, n, c, Tail(data, p), Rewritten(data, h));
  }

  /** Patching a fixed header that is already clean changes nothing. */
  lemma NewFixedOfClean(b: Bytes)
    requires |b| >= 10 && b[4..8] == [0, 0, 0, 0] && !Has(b[3], FNAME) && !Has(b[3], FHCRC)
    ensures NewFixed(b[..10], b[3]) == b[..10]
  {
    assert b[3] & !FNAME & !FHCRC == b[3];
    assert b[4] == b[4..8][0] && b[5] == b[4..8][1] && b[6] == b[4..8][2] && b[7] == b[4..8][3];
  }

  /**
   * A member whose header has MTIME zero and neither FNAME nor FHCRC is
   * rewritten to exactly the same bytes.
   */
  lemma RewriteCleanUnchanged(data: Bytes, h: Header)
    requires Parse(data) == Success(h)
    requires h.mtime == 0 && !Has(h.flg, FNAME) && !Has(h.flg, FHCRC)
    ensures Rewritten(data, h) == data
  {
    var e, n, c, p := ExtraEnd(h), NameEnd(h), CommentEnd(h), h.off.payloadStart;
    assert |data| >= 10 && n == e && p == c && data[4..8] == [0, 0, 0, 0] && h.flg == data[3] by {
      ParseFixed(data, h);
      ParseLayout(data, h);
      LE32Zero(data[4..8]);
    }
    NewFixedOfClean(data);
    RewrittenSegs(data, h);
    SegChain(data, e, n, c, p);
    assert Seg(data, e, n) == [] && Seg(data, c, p) == [];
    SkipEmpty(Rewritten(data, h), NewFixed(data[..10], data[3]), data[..10], Seg(data, 10, e),
      Seg(data, e, n), Seg(data, n, c), Seg(data, c, p), Tail(data, p), data);
  }

  /** Pieces laid end to end, two of them empty, are the other pieces laid end to end. */
  lemma SkipEmpty(r: Bytes, f: Bytes, f': Bytes, x: Bytes, y: Bytes, z: Bytes, w: Bytes, t: Bytes, whole: Bytes)
    requires r == f + x + z + t && f == f'
    requires whole == f' + x + y + z + w + t && y == [] && w == []
    ensures r == whole
  {
    assert f' + x + y == f' + x;
    assert f' + x + z + w == f' + x + z;
  }

  /**
   * Cleaning is idempotent: a rewritten member needs no cleaning at all, and
   * rewriting it again yields the same bytes.
   */
  lemma RewriteIdempotent(data: Bytes, h: Header)
    requires Parse(data) == Success(h)
    ensures var out := Rewritten(data, h);
      Parse(out).Success? &&
      var h2 := Parse(out).value;
      h2.mtime == 0 && !Has(h2.flg, FNAME) && !Has(h2.flg, FHCRC) &&
      NeedsCleaning(out) == Success(Needs(false, false, false, h2.flg, 0)) &&
      Rewritten(out, h2) == out
  {
    var out := Rewritten(data, h);
    ParseRewritten(data, h);
    var h2 := Parse(out).value;
    assert h2.mtime == 0 && !Has(h2.flg, FNAME) && !Has(h2.flg, FHCRC) by {
      RewriteFixedHeader(data, h);
      ParseFixed(out, h2);
      CleanedFlags(data[3]);
      LE32Zero(out[4..8]);
    }
    RewriteCleanUnchanged(out, h2);
  }

  /** After a rewrite there is nothing left for the sweep to clean. */
  lemma RewrittenIsClean(data: Bytes, h: Header)
    requires Parse(data) == Success(h)
    ensures HeaderClean(Rewritten(data, h))
  {
    RewriteIdempotent(data, h);
  }

  // ---------------------------------------------------------------- methods

  /** Reads one byte at a time from `idx` up to and including the first zero byte. */
  method SkipCString(data: Bytes, start: nat) returns (end: Option<nat>)
    ensures end == CStringEnd(data, start)
  {
    var idx := start;
    while true
      invariant start <= idx
      invariant CStringEnd(data, idx) == CStringEnd(data, start)
      decreases |data| - idx
    {
      var b := Read(data, idx, 1);
      if |b| == 0 {
        return None;
      }
      idx := idx + 1;
      if b[0] == 0 {
        return Some(idx);
      }
    }
  }

  /** When every field ends inside the data, Parse assembles the header from those ends. */
  lemma ParseSucceeds(data: Bytes, e: nat, n: nat, c: nat)
    requires GoodMagic(data) && (|data| >= 12 || !Has(data[3], FEXTRA))
    requires e == AfterExtra(data, data[3])
    requires AfterCString(data, Has(data[3], FNAME), e) == Some(n)
    requires AfterCString(data, Has(data[3], FCOMMENT), n) == Some(c)
    ensures Parse(data) == Success(Assemble(data, e, n, c))
  {
  }

  /** A header whose parts each agree with Assemble's is the assembled header. */
  lemma AssembledFrom(data: Bytes, e: nat, n: nat, c: nat, first10: Bytes, flg: bv8, mtime: nat, off: Offsets)
    requires |data| >= 10 && first10 == data[..10] && flg == data[3] && mtime == LE32(data[4..8])
    requires off.extraLenOff == (if Has(flg, FEXTRA) then Some(10) else None)
    requires off.extraEnd == (if Has(flg, FEXTRA) then Some(e) else None)
    requires off.fnameStart == (if Has(flg, FNAME) then Some(e) else None)
    requires off.fnameEnd == (if Has(flg, FNAME) then Some(n) else None)
    requires off.fcommentStart == (if Has(flg, FCOMMENT) then Some(n) else None)
    requires off.fcommentEnd == (if Has(flg, FCOMMENT) then Some(c) else None)
    requires off.fhcrcOff == (if Has(flg, FHCRC) then Some(c) else None)
    requires off.payloadStart == (if Has(flg, FHCRC) then c + 2 else c)
    ensures Header(first10, flg, mtime, off) == Assemble(data, e, n, c)
  {
  }

  /** `parse_gzip_header` on a file opened at its start. */
  method ParseGzipHeader(data: Bytes) returns (r: Result<Header, ParseError>)
    ensures r == Parse(data)
  {
    var h := Read(data, 0, 10);
    if |h| < 10 || h[0] != 0x1f || h[1] != 0x8b || h[2] != 0x08 {
      return Failure(NotGzipMember);
    }
    assert h == data[..10];
    var flg := h[3];
    var mtime := LE32(h[4..8]);
    assert h[4..8] == data[4..8];
    var idx: nat := 10;
    var extraLenOff, extraEnd: Option<nat> := None, None;
    var fnameStart, fnameEnd: Option<nat> := None, None;
    var fcommentStart, fcommentEnd: Option<nat> := None, None;
    var fhcrcOff: Option<nat> := None;

    if Has(flg, FEXTRA) {
      extraLenOff := Some(idx);
      var raw := Read(data, idx, 2);
      idx := idx + 2;
      if |raw| < 2 {
        return Failure(TruncatedExtraLength);
      }
      var xlen := LE16(raw[0], raw[1]);
      idx := idx + xlen;  // an unchecked seek: may pass the end of the file
      extraEnd := Some(idx);
    }
    ghost var e := idx;
    assert e == AfterExtra(data, flg);
    assert extraLenOff == (if Has(flg, FEXTRA) then Some(10) else None);
    assert extraEnd == (if Has(flg, FEXTRA) then Some(e) else None);
    if Has(flg, FNAME) {
      fnameStart := Some(idx);
      fnameEnd := SkipCString(data, idx);
      if fnameEnd.None? {
        return Failure(TruncatedName);
      }
      idx := fnameEnd.value;
    }
    ghost var n := idx;
    assert AfterCString(data, Has(flg, FNAME), e) == Some(n);
    assert fnameStart == (if Has(flg, FNAME) then Some(e) else None);
    assert fnameEnd == (if Has(flg, FNAME) then Some(n) else None);
    if Has(flg, FCOMMENT) {
      fcommentStart := Some(idx);
      fcommentEnd := SkipCString(data, idx);
      if fcommentEnd.None? {
        return Failure(TruncatedComment);
      }
      idx := fcommentEnd.value;
    }
    ghost var c := idx;
    assert AfterCString(data, Has(flg, FCOMMENT), n) == Some(c);
    assert fcommentStart == (if Has(flg, FCOMMENT) then Some(n) else None);
    assert fcommentEnd == (if Has(flg, FCOMMENT) then Some(c) else None);
    if Has(flg, FHCRC) {
      fhcrcOff := Some(idx);
      idx := idx + 2;  // an unchecked seek
    }
    assert fhcrcOff == (if Has(flg, FHCRC) then Some(c) else None);
    assert idx == (if Has(flg, FHCRC) then c + 2 else c);
    r := Success(Header(h, flg, mtime, Offsets(extraLenOff, extraEnd, fnameStart, fnameEnd,
                                               fcommentStart, fcommentEnd, fhcrcOff, idx)));
    ParseSucceeds(data, e, n, c);
    AssembledFrom(data, e, n, c, h, flg, mtime, Offsets(extraLenOff, extraEnd, fnameStart, fnameEnd,
                                                       fcommentStart, fcommentEnd, fhcrcOff, idx));
  }

  /** `needs_cleaning` on the contents of a file. */
  method NeedsCleaningOf(data: Bytes) returns (r: Result<Needs, ParseError>)
    ensures r == NeedsCleaning(data)
  {
    var p := ParseGzipHeader(data);
    if p.Failure? {
      return Failure(p.error);
    }
    var h := p.value;
    r := Success(Needs(h.mtime != 0, Has(h.flg, FNAME), Has(h.flg, FHCRC), h.flg, h.mtime));
  }

  /** The `bytearray` copy of the fixed header with FLG and MTIME patched. */
  method PatchFixed(first10: Bytes, flg: bv8) returns (fixed: Bytes)
    requires |first10| == 10
    ensures fixed == NewFixed(first10, flg)
  {
    var newFlg := flg & !FNAME;
    if Has(flg, FHCRC) {
      newFlg := newFlg & !FHCRC;
    }
    assert newFlg == flg & !FNAME & !FHCRC;
    var newFixed := new bv8[10](i requires 0 <= i < 10 => first10[i]);
    newFixed[3] := newFlg;
    newFixed[4], newFixed[5], newFixed[6], newFixed[7] := 0, 0, 0, 0;
    fixed := newFixed[..];
  }

  /** Copies everything from `from` to the end of the file, one chunk of `BUF` bytes at a time. */
  method CopyRest(data: Bytes, from: nat) returns (rest: Bytes)
    ensures rest == Tail(data, from)
  {
    rest := [];
    var pos := from;
    while true
      invariant from <= pos
      invariant rest == data[Min(from, |data|)..Min(pos, |data|)]
      decreases |data| - pos
    {
      var chunk := Read(data, pos, BUF);
      if |chunk| == 0 {
        break;
      }
      rest := rest + chunk;
      pos := pos + |chunk|;
    }
  }

  /** `rewrite_header_only`: writes the cleaned member to the returned output. */
  method RewriteHeaderOnly(data: Bytes, meta: Header) returns (out: Bytes)
    requires Parse(data) == Success(meta)
    ensures out == Rewritten(data, meta)
  {
    var flg := meta.flg;
    var off := meta.off;
    var dropFhcrc := Has(flg, FHCRC);
    FieldOffsets(data, meta);
    var fixed := PatchFixed(meta.first10, flg);
    // FEXTRA and FCOMMENT are copied as read; FNAME is skipped
    var extraBytes := if Has(flg, FEXTRA)
      then Read(data, off.extraLenOff.value, off.extraEnd.value - off.extraLenOff.value) else [];
    var commentBytes := if Has(flg, FCOMMENT)
      then Read(data, off.fcommentStart.value, off.fcommentEnd.value - off.fcommentStart.value) else [];
    var payloadFrom := if dropFhcrc && off.fhcrcOff.Some? then off.fhcrcOff.value + 2 else off.payloadStart;
    var rest := CopyRest(data, payloadFrom);
    out := fixed + extraBytes + commentBytes + rest;
    RewrittenParts(data, meta, fixed, extraBytes, commentBytes, rest);
  }
}
