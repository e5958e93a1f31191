/** Well-formed GGUF metadata written out as bytes, and proofs that the
    reading functions of `GgufFormat` recover exactly what was written:
    skipping an encoded value lands on the next byte after it, the
    key-value walk collects the tracked keys, and reading a whole encoded
    header yields the resolution of those candidates. */
module GgufEncoding {
  import opened Text
  import opened GgufFormat

  /** Little-endian bytes of `n` in `width` bytes (`struct.pack("<Q", n)`). */
  function LeBytes(n: nat, width: nat): (r: seq<byte>)
    ensures |r| == width
  {
    if width == 0 then [] else [n % 256] + LeBytes(n / 256, width - 1)
  }

  lemma {:induction false} LeRoundTrip(n: nat, width: nat)
    requires n < Pow256(width)
    ensures LeUint(LeBytes(n, width)) == n
  {
    if width > 0 {
      assert n / 256 < Pow256(width - 1);
      LeRoundTrip(n / 256, width - 1);
      assert LeBytes(n, width)[1..] == LeBytes(n / 256, width - 1);
    }
  }

  /** A metadata value: a fixed-width scalar with its raw payload, a string,
      or an array of values of one element type. */
  datatype Value =
    | Scalar(tag: nat, payload: seq<byte>)
    | Str(text: seq<byte>)
    | Array(elemTag: nat, elems: seq<Value>)

  /** `v` is a well-formed value of type `t`; strings are shorter than
      `MaxRead`, as `read_string` reads no longer ones. */
  predicate WellTyped(v: Value, t: nat)
    decreases v, 1
  {
    match v
    case Scalar(tag, payload) => tag == t && FixedWidth(t) == Some(|payload|)
    case Str(text) => t == TypeString && |text| < MaxRead
    case Array(et, elems) =>
      t == TypeArray && et < Pow256(4) && |elems| < Pow256(8) && AllWellTyped(elems, et)
  }

  /** Every value of `vs` is well-formed of type `t`. */
  predicate AllWellTyped(vs: seq<Value>, t: nat)
    decreases vs, 0
  {
    |vs| == 0 || (WellTyped(vs[0], t) && AllWellTyped(vs[1..], t))
  }

  function Encode(v: Value): seq<byte>
    decreases v, 1
  {
    match v
    case Scalar(_, payload) => payload
    case Str(text) => LeBytes(|text|, 8) + text
    case Array(et, elems) => LeBytes(et, 4) + LeBytes(|elems|, 8) + EncodeAll(elems)
  }

  function EncodeAll(vs: seq<Value>): seq<byte>
    decreases vs, 0
  {
    if |vs| == 0 then [] else Encode(vs[0]) + EncodeAll(vs[1..])
  }

  /** The integer `read_value_scalar` captures from a value of its own type,
      if any: only the 32- and 64-bit integer types are captured. */
  function Captured(v: Value): Option<int> {
    match v
    case Scalar(t, payload) =>
      if t == TypeUint32 || t == TypeUint64 then Some(LeUint(payload))
      else if t == TypeInt32 then Some(Signed(LeUint(payload), 4))
      else if t == TypeInt64 then Some(Signed(LeUint(payload), 8))
      else None
    case _ => None
  }

  /** `bs` appears in `data` at offset `pos`. */
  predicate At(data: seq<byte>, pos: nat, bs: seq<byte>) {
    pos + |bs| <= |data| && data[pos..pos + |bs|] == bs
  }

  lemma AtSplit(data: seq<byte>, pos: nat, a: seq<byte>, b: seq<byte>)
    requires At(data, pos, a + b)
    ensures At(data, pos, a) && At(data, pos + |a|, b)
  {
    var w := a + b;
    assert data[pos..pos + |a|] == w[..|a|];
    assert data[pos + |a|..pos + |w|] == w[|a|..];
  }

  /** Skipping an encoded value (followed by anything) moves the cursor to
      exactly the end of its encoding. */
  lemma {:induction false} SkipEncoded(data: seq<byte>, pos: nat, v: Value, t: nat)
    requires WellTyped(v, t)
    requires At(data, pos, Encode(v))
    ensures SkipAt(data, pos, t) == Some(pos + |Encode(v)|)
    decreases v, 1
  {
    match v
    case Scalar(_, payload) =>
      SkipFixedWidth(data, pos, t);
    case Str(text) =>
      StringEncoded(data, pos, text);
    case Array(et, elems) =>
      SkipArrayEncoded(data, pos, et, elems);
  }

  lemma {:induction false} SkipArrayEncoded(data: seq<byte>, pos: nat, et: nat, elems: seq<Value>)
    requires et < Pow256(4) && |elems| < Pow256(8)
    requires AllWellTyped(elems, et)
    requires At(data, pos, LeBytes(et, 4) + LeBytes(|elems|, 8) + EncodeAll(elems))
    ensures SkipAt(data, pos, TypeArray) == Some(pos + 12 + |EncodeAll(elems)|)
    decreases elems, 2
  {
    var enc := EncodeAll(elems);
    var count := |elems|;
    ArrayHeader(data, pos, et, count, enc);
    SkipEncodedAll(data, pos + 12, elems, et);
    SkipArray(data, pos, et, count, pos + 12 + |enc|);
  }

  lemma SkipArray(data: seq<byte>, pos: nat, et: nat, count: nat, end: nat)
    requires pos + 12 <= |data|
    requires LeUint(data[pos..pos + 4]) == et && LeUint(data[pos + 4..pos + 12]) == count
    requires SkipElements(data, pos + 12, et, count) == Some(end)
    ensures SkipAt(data, pos, TypeArray) == Some(end)
  {
  }

  lemma {:induction false} SkipEncodedAll(data: seq<byte>, pos: nat, vs: seq<Value>, t: nat)
    requires AllWellTyped(vs, t)
    requires At(data, pos, EncodeAll(vs))
    ensures SkipElements(data, pos, t, |vs|) == Some(pos + |EncodeAll(vs)|)
    decreases vs, 0
  {
    if |vs| > 0 {
      var first := vs[0];
      var rest := vs[1..];
      var mid := pos + |Encode(first)|;
      var end := mid + |EncodeAll(rest)|;
      var later: nat := |vs| - 1;
      AtSplit(data, pos, Encode(first), EncodeAll(rest));
      SkipEncoded(data, pos, first, t);
      SkipEncodedAll(data, mid, rest, t);
      assert |rest| == later;
      SkipNext(data, pos, t, |vs|, later, mid, end);
    }
  }

  lemma SkipNext(data: seq<byte>, pos: nat, t: nat, count: nat, later: nat, mid: nat, end: nat)
    requires count == later + 1
    requires SkipAt(data, pos, t) == Some(mid) && SkipElements(data, mid, t, later) == Some(end)
    ensures SkipElements(data, pos, t, count) == Some(end)
  {
  }

  /** `read_string` on an encoded string returns it and moves past it, and
      so does skipping it. */
  lemma StringEncoded(data: seq<byte>, pos: nat, text: seq<byte>)
    requires |text| < MaxRead
    requires At(data, pos, LeBytes(|text|, 8) + text)
    ensures ReadStringAt(data, pos) == StringRead(text, pos + 8 + |text|)
    ensures SkipAt(data, pos, TypeString) == Some(pos + 8 + |text|)
  {
    AtSplit(data, pos, LeBytes(|text|, 8), text);
    StringParts(data, pos, text);
  }

  lemma StringParts(data: seq<byte>, pos: nat, text: seq<byte>)
    requires |text| < MaxRead
    requires At(data, pos, LeBytes(|text|, 8)) && At(data, pos + 8, text)
    ensures ReadStringAt(data, pos) == StringRead(text, pos + 8 + |text|)
    ensures SkipAt(data, pos, TypeString) == Some(pos + 8 + |text|)
  {
    MaxReadHalf();
    LeRoundTrip(|text|, 8);
    StringOfLength(data, pos, text);
  }

  /** `read_string` where the whole announced length is present. */
  lemma StringOfLength(data: seq<byte>, pos: nat, text: seq<byte>)
    requires pos + 8 + |text| <= |data| && LeUint(data[pos..pos + 8]) == |text| < MaxRead
    requires data[pos + 8..pos + 8 + |text|] == text
    ensures ReadStringAt(data, pos) == StringRead(text, pos + 8 + |text|)
    ensures SkipAt(data, pos, TypeString) == Some(pos + 8 + |text|)
  {
  }

  /** An encoded integer of `width` bytes reads back as itself. */
  lemma UintEncoded(data: seq<byte>, pos: nat, n: nat, width: nat)
    requires n < Pow256(width)
    requires At(data, pos, LeBytes(n, width))
    ensures ReadUintAt(data, pos, width) == Some(n)
  {
    LeRoundTrip(n, width);
  }

  /** The 12-byte array header reads back as its element type and count. */
  lemma ArrayHeader(data: seq<byte>, pos: nat, et: nat, count: nat, rest: seq<byte>)
    requires et < Pow256(4) && count < Pow256(8)
    requires At(data, pos, LeBytes(et, 4) + LeBytes(count, 8) + rest)
    ensures pos + 12 <= |data|
    ensures LeUint(data[pos..pos + 4]) == et && LeUint(data[pos + 4..pos + 12]) == count
    ensures At(data, pos + 12, rest)
  {
    AtSplit(data, pos, LeBytes(et, 4) + LeBytes(count, 8), rest);
    AtSplit(data, pos, LeBytes(et, 4), LeBytes(count, 8));
    LeRoundTrip(et, 4);
    LeRoundTrip(count, 8);
  }

  /** Skipping a fixed-width value never reads: the cursor moves by the
      width, even past the end of the file. */
  lemma SkipFixedWidth(data: seq<byte>, pos: nat, t: nat)
    requires FixedWidth(t).Some?
    ensures SkipAt(data, pos, t) == Some(pos + FixedWidth(t).value)
  {
  }

  /** An array of `count` fixed-width elements occupies its 12-byte header
      plus `count` times the element width. */
  lemma ArrayWidth(data: seq<byte>, pos: nat, et: nat, count: nat)
    requires FixedWidth(et).Some?
    requires pos + 12 <= |data|
    requires data[pos..pos + 4] == LeBytes(et, 4) && data[pos + 4..pos + 12] == LeBytes(count, 8)
    requires et < Pow256(4) && count < Pow256(8)
    ensures SkipAt(data, pos, TypeArray) == Some(pos + 12 + count * FixedWidth(et).value)
  {
    LeRoundTrip(et, 4);
    LeRoundTrip(count, 8);
    FixedElements(data, pos + 12, et, count);
  }

  lemma {:induction false} FixedElements(data: seq<byte>, pos: nat, et: nat, count: nat)
    requires FixedWidth(et).Some?
    ensures SkipElements(data, pos, et, count) == Some(pos + count * FixedWidth(et).value)
    decreases count
  {
    if count > 0 {
      FixedElements(data, pos + FixedWidth(et).value, et, count - 1);
    }
  }

  /** `read_value_scalar` on an encoded value captures `Captured(v)` and
      consumes exactly its encoding. */
  lemma ScalarEncoded(data: seq<byte>, pos: nat, v: Value, t: nat)
    requires WellTyped(v, t)
    requires At(data, pos, Encode(v))
    ensures ReadScalarAt(data, pos, t) == ScalarRead(Captured(v), pos + |Encode(v)|)
  {
    if !(t in {TypeUint32, TypeInt32, TypeUint64, TypeInt64}) {
      SkipEncoded(data, pos, v, t);
    }
  }

  /** A metadata entry: key, value type tag and value. */
  datatype Entry = Entry(key: seq<byte>, tag: nat, value: Value)

  predicate WellFormed(e: Entry) {
    |e.key| < MaxRead && e.tag < Pow256(4) && WellTyped(e.value, e.tag)
  }

  predicate AllWellFormed(es: seq<Entry>) {
    |es| == 0 || (WellFormed(es[0]) && AllWellFormed(es[1..]))
  }

  function EncodeEntry(e: Entry): seq<byte> {
    LeBytes(|e.key|, 8) + e.key + LeBytes(e.tag, 4) + Encode(e.value)
  }

  function EncodeEntries(es: seq<Entry>): seq<byte> {
    if |es| == 0 then [] else EncodeEntry(es[0]) + EncodeEntries(es[1..])
  }

  /** The candidates one entry contributes: a captured integer under a
      context key, failing that under a block-count key. */
  function Contribute(e: Entry, acc: Candidates): Candidates {
    var c := Captured(e.value);
    if IsContextKey(e.key) && c.Some? then acc.(ctx := acc.ctx[e.key := c.value])
    else if !IsContextKey(e.key) && IsBlockCountKey(e.key) && c.Some? then acc.(layers := acc.layers[e.key := c.value])
    else acc
  }

  /** The candidates the entries contribute, in order; a later entry with
      the same key replaces an earlier one, as a dictionary assignment does. */
  function Collect(es: seq<Entry>, acc: Candidates): Candidates
    decreases |es|
  {
    if |es| == 0 then acc else Collect(es[1..], Contribute(es[0], acc))
  }

  /** Collecting one more entry contributes it after all the others. */
  lemma {:induction false} CollectAppend(es: seq<Entry>, e: Entry, acc: Candidates)
    ensures Collect(es + [e], acc) == Contribute(e, Collect(es, acc))
    decreases |es|
  {
    if |es| > 0 {
      assert (es + [e])[1..] == es[1..] + [e];
      CollectAppend(es[1..], e, Contribute(es[0], acc));
    }
  }

  /** A repeated tracked key keeps the value of its last entry, as a
      dictionary assignment does. */
  lemma LastEntryWins(es: seq<Entry>, e: Entry, acc: Candidates)
    requires Captured(e.value).Some?
    ensures IsContextKey(e.key) ==>
      var c := Collect(es + [e], acc);
      e.key in c.ctx && c.ctx[e.key] == Captured(e.value).value
    ensures !IsContextKey(e.key) && IsBlockCountKey(e.key) ==>
      var c := Collect(es + [e], acc);
      e.key in c.layers && c.layers[e.key] == Captured(e.value).value
    ensures !IsContextKey(e.key) && !IsBlockCountKey(e.key) ==> Collect(es + [e], acc) == Collect(es, acc)
  {
    CollectAppend(es, e, acc);
  }

  /** One round of the key-value loop over an encoded entry reads it whole
      and contributes exactly what `Contribute` says. */
  lemma EntryEncoded(data: seq<byte>, pos: nat, e: Entry, acc: Candidates)
    requires WellFormed(e)
    requires At(data, pos, EncodeEntry(e))
    ensures RoundAt(data, pos, acc) == RoundNext(pos + |EncodeEntry(e)|, Contribute(e, acc))
  {
    var p1 := pos + 8 + |e.key|;
    var p2 := p1 + 4;
    EntryHeader(data, pos, e, p1, p2);
    ValueStep(data, p2, e, acc);
    RoundOf(data, pos, e.key, e.tag, acc, p1, p2);
  }

  /** The key and type tag of an encoded entry read back as themselves. */
  lemma EntryHeader(data: seq<byte>, pos: nat, e: Entry, p1: nat, p2: nat)
    requires WellFormed(e)
    requires At(data, pos, EncodeEntry(e))
    requires p1 == pos + 8 + |e.key| && p2 == p1 + 4
    ensures ReadStringAt(data, pos) == StringRead(e.key, p1)
    ensures ReadUintAt(data, p1, 4) == Some(e.tag)
    ensures At(data, p2, Encode(e.value))
  {
    var key, tag := e.key, e.tag;
    var head := LeBytes(|key|, 8) + key;
    var tagBytes := LeBytes(tag, 4);
    var value := Encode(e.value);
    assert EncodeEntry(e) == (head + tagBytes) + value;
    HeaderParts(data, pos, head, tagBytes, value, p1, p2);
    StringEncoded(data, pos, key);
    UintEncoded(data, p1, tag, 4);
  }

  lemma HeaderParts(data: seq<byte>, pos: nat, head: seq<byte>, tagBytes: seq<byte>, value: seq<byte>, p1: nat, p2: nat)
    requires At(data, pos, (head + tagBytes) + value)
    requires p1 == pos + |head| && p2 == p1 + |tagBytes|
    ensures At(data, pos, head) && At(data, p1, tagBytes) && At(data, p2, value)
  {
    AtSplit(data, pos, head + tagBytes, value);
    AtSplit(data, pos, head, tagBytes);
  }

  /** A round whose key and tag read back continues with the value step. */
  lemma RoundOf(data: seq<byte>, pos: nat, key: seq<byte>, t: nat, acc: Candidates, p1: nat, p2: nat)
    requires ReadStringAt(data, pos) == StringRead(key, p1)
    requires ReadUintAt(data, p1, 4) == Some(t)
    requires p2 == p1 + 4
    ensures EntryStep(data, p2, key, t, acc).Stepped? ==>
      RoundAt(data, pos, acc) == RoundNext(EntryStep(data, p2, key, t, acc).next, EntryStep(data, p2, key, t, acc).acc)
  {
  }

  lemma ValueStep(data: seq<byte>, pos: nat, e: Entry, acc: Candidates)
    requires WellFormed(e)
    requires At(data, pos, Encode(e.value))
    ensures EntryStep(data, pos, e.key, e.tag, acc) == Stepped(pos + |Encode(e.value)|, Contribute(e, acc))
  {
    if IsContextKey(e.key) || IsBlockCountKey(e.key) {
      ScalarEncoded(data, pos, e.value, e.tag);
    } else {
      SkipEncoded(data, pos, e.value, e.tag);
    }
  }

  /** The walk over encoded entries that end the file collects exactly
      their candidates, even when the declared count exceeds the entries
      present: the walk then stops at the end of the file. */
  lemma {:induction false} WalkEncoded(data: seq<byte>, pos: nat, es: seq<Entry>, remaining: nat, acc: Candidates)
    requires AllWellFormed(es)
    requires remaining >= |es|
    requires pos <= |data| && data[pos..] == EncodeEntries(es)
    ensures WalkEntries(data, pos, remaining, acc) == Some(Collect(es, acc))
    decreases |es|
  {
    if |es| == 0 {
      WalkAtEnd(data, pos, remaining, acc);
    } else {
      var next: nat := pos + |EncodeEntry(es[0])|;
      var acc' := Contribute(es[0], acc);
      var later: nat := remaining - 1;
      var none: seq<byte> := [];
      assert data[pos..] == EncodeEntries(es) + none;
      EntriesSplit(data, pos, es, none);
      assert data[next..] == EncodeEntries(es[1..]);
      WalkEncoded(data, next, es[1..], later, acc');
      PrefixStep(data, pos, es[0], remaining, later, acc, next);
      assert WalkEntries(data, next, later, acc') == Some(Collect(es, acc));
    }
  }

  /** The walk over exactly as many encoded entries as the header declares
      collects their candidates, whatever bytes follow them (the tensor
      infos and data of a real file): the loop stops after `kv_count`
      rounds. */
  lemma {:induction false} WalkEncodedTail(data: seq<byte>, pos: nat, es: seq<Entry>, tail: seq<byte>, acc: Candidates)
    requires AllWellFormed(es)
    requires pos <= |data| && data[pos..] == EncodeEntries(es) + tail
    ensures WalkEntries(data, pos, |es|, acc) == Some(Collect(es, acc))
    decreases |es|
  {
    if |es| == 0 {
      assert WalkEntries(data, pos, 0, acc) == Some(acc);
    } else {
      var next: nat := pos + |EncodeEntry(es[0])|;
      var acc' := Contribute(es[0], acc);
      var rest := es[1..];
      var later: nat := |rest|;
      EntriesSplit(data, pos, es, tail);
      WalkEncodedTail(data, next, rest, tail, acc');
      assert WalkEntries(data, next, later, acc') == Some(Collect(rest, acc'));
      PrefixStep(data, pos, es[0], |es|, later, acc, next);
      assert WalkEntries(data, next, later, acc') == Some(Collect(es, acc));
    }
  }

  /** Entries that read whole, then a string value announcing `MaxRead`
      bytes or more: the walk raises before it runs out of rounds. */
  lemma {:induction false} WalkOverlong(data: seq<byte>, pos: nat, es: seq<Entry>, key: seq<byte>, length: nat, rest: seq<byte>,
                                        remaining: nat, acc: Candidates)
    requires AllWellFormed(es)
    requires remaining > |es|
    requires |key| < MaxRead && MaxRead <= length < Pow256(8)
    requires pos <= |data| && data[pos..] == EncodeEntries(es) + OverlongEntry(key, length, rest)
    ensures WalkEntries(data, pos, remaining, acc) == None
    decreases |es|
  {
    if |es| == 0 {
      OverlongAt(data, pos, key, length, rest, remaining, acc);
    } else {
      var next: nat := pos + |EncodeEntry(es[0])|;
      var acc' := Contribute(es[0], acc);
      var later: nat := remaining - 1;
      EntriesSplit(data, pos, es, OverlongEntry(key, length, rest));
      WalkOverlong(data, next, es[1..], key, length, rest, later, acc');
      PrefixStep(data, pos, es[0], remaining, later, acc, next);
      assert WalkEntries(data, next, later, acc') == None;
    }
  }

  lemma EntriesSplit(data: seq<byte>, pos: nat, es: seq<Entry>, tail: seq<byte>)
    requires |es| > 0 && pos <= |data| && data[pos..] == EncodeEntries(es) + tail
    ensures At(data, pos, EncodeEntry(es[0]))
    ensures pos + |EncodeEntry(es[0])| <= |data| && data[pos + |EncodeEntry(es[0])|..] == EncodeEntries(es[1..]) + tail
  {
    assert EncodeEntries(es) + tail == EncodeEntry(es[0]) + (EncodeEntries(es[1..]) + tail);
    SuffixSplit(data, pos, EncodeEntry(es[0]), EncodeEntries(es[1..]) + tail);
  }

  /** The walk's round over an encoded entry hands it on to the next one. */
  lemma PrefixStep(data: seq<byte>, pos: nat, e: Entry, remaining: nat, later: nat, acc: Candidates, next: nat)
    requires WellFormed(e) && At(data, pos, EncodeEntry(e))
    requires remaining == later + 1 && next == pos + |EncodeEntry(e)|
    ensures WalkEntries(data, pos, remaining, acc) == WalkEntries(data, next, later, Contribute(e, acc))
  {
    EntryEncoded(data, pos, e, acc);
    WalkStep(data, pos, remaining, later, acc, next, Contribute(e, acc));
  }

  lemma SuffixSplit(data: seq<byte>, pos: nat, a: seq<byte>, b: seq<byte>)
    requires pos <= |data| && data[pos..] == a + b
    ensures At(data, pos, a) && pos + |a| <= |data| && data[pos + |a|..] == b
  {
    assert data[pos..pos + |a|] == (a + b)[..|a|];
    assert data[pos + |a|..] == (a + b)[|a|..];
  }

  /** A GGUF file holding a header that declares `kvCount` entries, then the
      given entries and nothing else. */
  function EncodeFile(version: nat, tensorCount: nat, kvCount: nat, es: seq<Entry>): seq<byte>
    requires version < Pow256(4) && tensorCount < Pow256(8) && kvCount < Pow256(8)
  {
    Magic + LeBytes(version, 4) + LeBytes(tensorCount, 8) + LeBytes(kvCount, 8) + EncodeEntries(es)
  }

  /** Reading an encoded file recovers its tensor count and resolves the
      entries' candidates by the context and layer policies. A header that
      declares more entries than the file holds still gives this result:
      the walk stops at the end of the file. */
  lemma ReadEncodedFile(version: nat, tensorCount: nat, kvCount: nat, es: seq<Entry>)
    requires version < Pow256(4) && tensorCount < Pow256(8) && kvCount < Pow256(8)
    requires AllWellFormed(es) && |es| <= kvCount
    ensures var c := Collect(es, NoCandidates);
            ReadInfo(EncodeFile(version, tensorCount, kvCount, es)) ==
            Some(GgufInfo(ResolveContext(c.ctx), ResolveLayers(c.layers), tensorCount))
  {
    var data := EncodeFile(version, tensorCount, kvCount, es);
    FileSlices(Magic, LeBytes(version, 4), LeBytes(tensorCount, 8), LeBytes(kvCount, 8), EncodeEntries(es));
    LeRoundTrip(tensorCount, 8);
    LeRoundTrip(kvCount, 8);
    WalkEncoded(data, 24, es, kvCount, NoCandidates);
    HeaderRead(data, tensorCount, kvCount);
  }

  /** Reading a GGUF file whose header declares exactly its entries, with
      any bytes after them, gives the same result: what follows the
      key/value section is never read. */
  lemma {:induction false} ReadEncodedFileTail(version: nat, tensorCount: nat, es: seq<Entry>, tail: seq<byte>)
    requires version < Pow256(4) && tensorCount < Pow256(8) && |es| < Pow256(8)
    requires AllWellFormed(es)
    ensures var c := Collect(es, NoCandidates);
            ReadInfo(EncodeFile(version, tensorCount, |es|, es) + tail) ==
            Some(GgufInfo(ResolveContext(c.ctx), ResolveLayers(c.layers), tensorCount))
  {
    var data := EncodeFile(version, tensorCount, |es|, es) + tail;
    FileHeader(version, tensorCount, |es|, es, tail);
    WalkEncodedTail(data, 24, es, tail, NoCandidates);
    HeaderRead(data, tensorCount, |es|);
  }

  lemma FileSlices(a: seq<byte>, b: seq<byte>, c: seq<byte>, d: seq<byte>, body: seq<byte>)
    requires |a| == 4 && |b| == 4 && |c| == 8 && |d| == 8
    ensures var f := a + b + c + d + body;
            |f| >= 24 && f[..4] == a && f[8..16] == c && f[16..24] == d && f[24..] == body
  {
    var f := a + b + c + d + body;
    assert f[..4] == a;
    assert f[8..16] == c;
    assert f[16..24] == d;
    assert f[24..] == body;
  }

  /** The header of a file with the magic bytes and complete counts. */
  lemma HeaderRead(data: seq<byte>, tensorCount: nat, kvCount: nat)
    requires |data| >= 24 && data[..4] == Magic
    requires LeUint(data[8..16]) == tensorCount && LeUint(data[16..24]) == kvCount
    ensures ReadInfo(data) ==
            match WalkEntries(data, 24, kvCount, NoCandidates)
            case None => None
            case Some(c) => Some(GgufInfo(ResolveContext(c.ctx), ResolveLayers(c.layers), tensorCount))
  {
    assert Available(data, 0, 4) == data[..4];
  }

  /** A file not starting with the magic bytes has no information. */
  lemma BadMagic(data: seq<byte>)
    requires |data| < 4 || data[..4] != Magic
    ensures ReadInfo(data) == None
  {
  }

  /** A file that passes the magic check but is cut inside the header has no
      information either. */
  lemma TruncatedHeader(data: seq<byte>)
    requires |data| < 24
    ensures ReadInfo(data) == None
  {
  }

  /** A string value announcing `MaxRead` bytes or more, after an entry's
      key and type tag, makes `read_gguf_info` return `None` whatever
      entries come before it: the read of its text raises. */
  lemma {:induction false} OverlongStringFile(version: nat, tensorCount: nat, kvCount: nat, es: seq<Entry>,
                           key: seq<byte>, length: nat, rest: seq<byte>)
    requires version < Pow256(4) && tensorCount < Pow256(8) && kvCount < Pow256(8)
    requires AllWellFormed(es) && |es| < kvCount
    requires |key| < MaxRead && MaxRead <= length < Pow256(8)
    ensures ReadInfo(EncodeFile(version, tensorCount, kvCount, es) + OverlongEntry(key, length, rest)) == None
  {
    MaxReadHalf();
    var tail := OverlongEntry(key, length, rest);
    var data := EncodeFile(version, tensorCount, kvCount, es) + tail;
    FileHeader(version, tensorCount, kvCount, es, tail);
    WalkOverlong(data, 24, es, key, length, rest, kvCount, NoCandidates);
    HeaderRead(data, tensorCount, kvCount);
  }

  /** An encoded file followed by more bytes still starts with its header. */
  lemma FileHeader(version: nat, tensorCount: nat, kvCount: nat, es: seq<Entry>, tail: seq<byte>)
    requires version < Pow256(4) && tensorCount < Pow256(8) && kvCount < Pow256(8)
    ensures var data := EncodeFile(version, tensorCount, kvCount, es) + tail;
            |data| >= 24 && data[..4] == Magic && LeUint(data[8..16]) == tensorCount &&
            LeUint(data[16..24]) == kvCount && data[24..] == EncodeEntries(es) + tail
  {
    var head := Magic + LeBytes(version, 4) + LeBytes(tensorCount, 8) + LeBytes(kvCount, 8);
    assert EncodeFile(version, tensorCount, kvCount, es) + tail == head + (EncodeEntries(es) + tail);
    FileSlices(Magic, LeBytes(version, 4), LeBytes(tensorCount, 8), LeBytes(kvCount, 8), EncodeEntries(es) + tail);
    LeRoundTrip(tensorCount, 8);
    LeRoundTrip(kvCount, 8);
  }

  /** The bytes of an entry with key `key` and type string whose value
      announces `length` bytes, followed by `rest`. */
  function OverlongEntry(key: seq<byte>, length: nat, rest: seq<byte>): seq<byte>
    requires |key| < Pow256(8) && length < Pow256(8)
  {
    LeBytes(|key|, 8) + key + LeBytes(TypeString, 4) + LeBytes(length, 8) + rest
  }

  lemma OverlongAt(data: seq<byte>, pos: nat, key: seq<byte>, length: nat, rest: seq<byte>, remaining: nat, acc: Candidates)
    requires |key| < MaxRead && MaxRead <= length < Pow256(8) && remaining > 0
    requires pos <= |data| && data[pos..] == OverlongEntry(key, length, rest)
    ensures WalkEntries(data, pos, remaining, acc) == None
  {
    MaxReadHalf();
    var p1 := pos + 8 + |key|;
    var tagBytes := LeBytes(TypeString, 4);
    var lenBytes := LeBytes(length, 8);
    assert OverlongEntry(key, length, rest) == (LeBytes(|key|, 8) + key) + (tagBytes + (lenBytes + rest));
    SuffixSplit(data, pos, LeBytes(|key|, 8) + key, tagBytes + (lenBytes + rest));
    StringEncoded(data, pos, key);
    SuffixSplit(data, p1, tagBytes, lenBytes + rest);
    UintEncoded(data, p1, TypeString, 4);
    SuffixSplit(data, p1 + 4, lenBytes, rest);
    LeRoundTrip(length, 8);
    OverlongValueRaises(data, pos, acc, key, p1);
  }
}
