/** The GGUF metadata layout as model-info.py reads it, and what each of its
    reading steps computes, as functions of the file's bytes and a cursor
    position.

    The cursor behaves like a Python binary file: `read(n)` returns at most
    `n` bytes and stops at the end of the file, while `seek(n, 1)` may move
    the cursor past the end without complaint. A `struct.unpack` of a short
    read raises, and any exception makes the whole read yield no result. */
module GgufFormat {
  import opened Text

  type byte = b: int | 0 <= b < 256

  // Value type tags of the format.
  const TypeUint8: nat := 0
  const TypeInt8: nat := 1
  const TypeUint16: nat := 2
  const TypeInt16: nat := 3
  const TypeUint32: nat := 4
  const TypeInt32: nat := 5
  const TypeFloat32: nat := 6
  const TypeBool: nat := 7
  const TypeString: nat := 8
  const TypeArray: nat := 9
  const TypeUint64: nat := 10
  const TypeInt64: nat := 11
  const TypeFloat64: nat := 12

  /** Bytes of an ASCII text. */
  function AsciiBytes(s: string): (r: seq<byte>)
    requires forall i :: 0 <= i < |s| ==> s[i] as int < 256
    ensures |r| == |s| && forall i :: 0 <= i < |s| ==> r[i] == s[i] as int
  {
    seq(|s|, i requires 0 <= i < |s| => s[i] as int as byte)
  }

  /** The four magic bytes `GGUF`. */
  const Magic: seq<byte> := AsciiBytes("GGUF")

  /** Key suffixes the reader tracks. */
  const ContextSuffix: seq<byte> := AsciiBytes(".context_length")
  const ContextTrainSuffix: seq<byte> := AsciiBytes(".context_length_train")
  const BlockCountSuffix: seq<byte> := AsciiBytes(".block_count")
  const TrainSuffix: seq<byte> := AsciiBytes("_train")

  function Pow256(n: nat): (r: nat)
    ensures r >= 1
  {
    if n == 0 then 1 else 256 * Pow256(n - 1)
  }

  /** Unsigned little-endian value of a byte string (`struct` formats `<I`, `<Q`). */
  function LeUint(bs: seq<byte>): (r: nat)
    ensures r < Pow256(|bs|)
  {
    if |bs| == 0 then 0 else bs[0] + 256 * LeUint(bs[1..])
  }

  /** Two's-complement reading of an unsigned value `u` of `width` bytes
      (`struct` formats `<i`, `<q`). */
  function Signed(u: nat, width: nat): int {
    if 2 * u >= Pow256(width) then u - Pow256(width) else u
  }

  /** Byte width of the fixed-width types; `None` for string, array and any
      tag outside the format. */
  function FixedWidth(t: nat): Option<nat> {
    if t == TypeUint8 || t == TypeInt8 || t == TypeBool then Some(1)
    else if t == TypeUint16 || t == TypeInt16 then Some(2)
    else if t == TypeUint32 || t == TypeInt32 || t == TypeFloat32 then Some(4)
    else if t == TypeUint64 || t == TypeInt64 || t == TypeFloat64 then Some(8)
    else None
  }

  function Min(a: nat, b: nat): nat { if a <= b then a else b }

  /** `f.read(n)` takes a signed 64-bit size: from this count on it raises
      `OverflowError` before reading anything. */
  const MaxRead: nat := 0x8000_0000_0000_0000

  /** `MaxRead` is half the range of a u64 length field. */
  lemma MaxReadHalf()
    ensures 2 * MaxRead == Pow256(8)
  {
    assert Pow256(2) == 0x1_0000;
    assert Pow256(4) == 0x1_0000_0000;
    assert Pow256(8) == 0x1_0000_0000_0000_0000 by {
      assert Pow256(6) == 0x1_0000_0000_0000;
    }
  }

  /** What `f.read(n)` returns at cursor `pos` for `n` below `MaxRead`; the
      cursor then moves by its length. */
  function Available(data: seq<byte>, pos: nat, n: nat): (r: seq<byte>)
    ensures |r| <= n
    ensures pos + n <= |data| ==> r == data[pos..pos + n]
    ensures pos + |r| <= |data| || r == []
  {
    if pos >= |data| then [] else data[pos..Min(pos + n, |data|)]
  }

  /** `struct.unpack` of a `width`-byte read: a value exactly when the whole
      width is there. */
  function ReadUintAt(data: seq<byte>, pos: nat, width: nat): (r: Option<nat>)
    ensures r.Some? <==> pos + width <= |data|
    ensures r.Some? ==> r.value < Pow256(width)
  {
    if pos + width <= |data| then Some(LeUint(data[pos..pos + width])) else None
  }

  /** Outcome of `read_string`: `None` at end of file, an exception, or the
      bytes read and the new cursor. */
  datatype StringRead = EndOfFile | StringFailed | StringRead(text: seq<byte>, next: nat)

  /** `read_string` at `pos`: a u64 length, then at most that many bytes;
      a length of `MaxRead` or more makes the second read raise. */
  function ReadStringAt(data: seq<byte>, pos: nat): (r: StringRead)
    ensures r.EndOfFile? <==> pos >= |data|
    ensures r.StringFailed? <==> pos < |data| < pos + 8 || (pos + 8 <= |data| && LeUint(data[pos..pos + 8]) >= MaxRead)
    ensures r.StringRead? ==> pos + 8 <= r.next <= |data| && r.text == data[pos + 8..r.next]
    ensures r.StringRead? ==> |r.text| <= LeUint(data[pos..pos + 8]) && (r.next < |data| ==> |r.text| == LeUint(data[pos..pos + 8]))
  {
    if pos >= |data| then EndOfFile
    else if pos + 8 > |data| then StringFailed
    else
      var length := LeUint(data[pos..pos + 8]);
      if length >= MaxRead then StringFailed
      else
        var next := Min(pos + 8 + length, |data|);
        StringRead(data[pos + 8..next], next)
  }

  /** A measure that every successful array header read decreases. */
  function Rank(data: seq<byte>, pos: nat): nat {
    if pos <= |data| then |data| - pos else 0
  }

  /** `skip_value(f, t)` at `pos`: the cursor afterwards, or `None` when it
      raises. */
  function SkipAt(data: seq<byte>, pos: nat, t: nat): (r: Option<nat>)
    ensures r.Some? ==> r.value >= pos
    decreases Rank(data, pos), 1, 0
  {
    if t == TypeString then
      match ReadStringAt(data, pos)
      case EndOfFile => Some(pos)
      case StringFailed => None
      case StringRead(_, next) => Some(next)
    else if t == TypeArray then
      if pos + 12 > |data| then None
      else SkipElements(data, pos + 12, LeUint(data[pos..pos + 4]), LeUint(data[pos + 4..pos + 12]))
    else
      match FixedWidth(t)
      case Some(w) => Some(pos + w)
      case None => None
  }

  /** The array loop of `skip_value`: skip `count` values of type `t`. */
  function SkipElements(data: seq<byte>, pos: nat, t: nat, count: nat): (r: Option<nat>)
    ensures r.Some? ==> r.value >= pos
    decreases Rank(data, pos), 2, count
  {
    if count == 0 then Some(pos)
    else
      match SkipAt(data, pos, t)
      case None => None
      case Some(p) => SkipElements(data, p, t, count - 1)
  }

  /** Outcome of `read_value_scalar`: an exception, or the captured value (for
      the four integer types) and the new cursor. */
  datatype ScalarRead = ScalarFailed | ScalarRead(value: Option<int>, next: nat)

  function ReadScalarAt(data: seq<byte>, pos: nat, t: nat): (r: ScalarRead)
    ensures r.ScalarRead? ==> r.next >= pos
  {
    if t == TypeUint32 || t == TypeInt32 then
      match ReadUintAt(data, pos, 4)
      case None => ScalarFailed
      case Some(u) => ScalarRead(Some(if t == TypeInt32 then Signed(u, 4) else u), pos + 4)
    else if t == TypeUint64 || t == TypeInt64 then
      match ReadUintAt(data, pos, 8)
      case None => ScalarFailed
      case Some(u) => ScalarRead(Some(if t == TypeInt64 then Signed(u, 8) else u), pos + 8)
    else
      match SkipAt(data, pos, t)
      case None => ScalarFailed
      case Some(p) => ScalarRead(None, p)
  }

  /** `read_value_scalar` captures a value exactly for the four integer
      types, reading 4 or 8 bytes, and otherwise behaves as `skip_value`. */
  lemma ScalarCases(data: seq<byte>, pos: nat, t: nat)
    ensures var r := ReadScalarAt(data, pos, t);
            if t in {TypeUint32, TypeInt32} then
              (r.ScalarFailed? <==> pos + 4 > |data|) && (r.ScalarRead? ==> r.value.Some? && r.next == pos + 4)
            else if t in {TypeUint64, TypeInt64} then
              (r.ScalarFailed? <==> pos + 8 > |data|) && (r.ScalarRead? ==> r.value.Some? && r.next == pos + 8)
            else
              (r.ScalarFailed? <==> SkipAt(data, pos, t).None?) && (r.ScalarRead? ==> r.value.None? && SkipAt(data, pos, t) == Some(r.next))
  {
  }

  /** The two candidate dictionaries of `read_gguf_info`, keyed by the raw key bytes. */
  datatype Candidates = Candidates(ctx: map<seq<byte>, int>, layers: map<seq<byte>, int>)

  predicate IsContextKey(key: seq<byte>) {
    EndsWith(key, ContextSuffix) || EndsWith(key, ContextTrainSuffix)
  }

  predicate IsBlockCountKey(key: seq<byte>) {
    EndsWith(key, BlockCountSuffix)
  }

  /** Outcome of reading one entry's value: an exception, or the new cursor
      and candidates. */
  datatype Step = StepFailed | Stepped(next: nat, acc: Candidates)

  /** One key-value entry whose key and type have been read. */
  function EntryStep(data: seq<byte>, pos: nat, key: seq<byte>, t: nat, acc: Candidates): (r: Step)
    ensures r.Stepped? ==> r.next >= pos
  {
    if IsContextKey(key) then
      match ReadScalarAt(data, pos, t)
      case ScalarFailed => StepFailed
      case ScalarRead(v, p) =>
        Stepped(p, if v.Some? then acc.(ctx := acc.ctx[key := v.value]) else acc)
    else if IsBlockCountKey(key) then
      match ReadScalarAt(data, pos, t)
      case ScalarFailed => StepFailed
      case ScalarRead(v, p) =>
        Stepped(p, if v.Some? then acc.(layers := acc.layers[key := v.value]) else acc)
    else
      match SkipAt(data, pos, t)
      case None => StepFailed
      case Some(p) => Stepped(p, acc)
  }

  /** Outcome of one round of the key-value loop: the loop breaks (no key
      length left to read), an exception, or the next cursor and candidates. */
  datatype Round = RoundEnd | RoundFailed | RoundNext(next: nat, acc: Candidates)

  /** One round of the key-value loop at `pos`: read the key, the type tag,
      then the value. */
  function RoundAt(data: seq<byte>, pos: nat, acc: Candidates): (r: Round)
    ensures r.RoundNext? ==> r.next >= pos + 12
  {
    match ReadStringAt(data, pos)
    case EndOfFile => RoundEnd
    case StringFailed => RoundFailed
    case StringRead(key, p1) =>
      match ReadUintAt(data, p1, 4)
      case None => RoundFailed
      case Some(t) =>
        match EntryStep(data, p1 + 4, key, t, acc)
        case StepFailed => RoundFailed
        case Stepped(p2, acc') => RoundNext(p2, acc')
  }

  /** The key-value loop: at most `remaining` rounds; a break keeps the
      candidates collected so far. */
  function WalkEntries(data: seq<byte>, pos: nat, remaining: nat, acc: Candidates): Option<Candidates>
    decreases remaining
  {
    if remaining == 0 then Some(acc)
    else
      match RoundAt(data, pos, acc)
      case RoundEnd => Some(acc)
      case RoundFailed => None
      case RoundNext(next, acc') => WalkEntries(data, next, remaining - 1, acc')
  }

  /** A completed round hands the walk on to the next entry. */
  lemma WalkStep(data: seq<byte>, pos: nat, remaining: nat, later: nat, acc: Candidates, next: nat, acc': Candidates)
    requires remaining == later + 1
    requires RoundAt(data, pos, acc) == RoundNext(next, acc')
    ensures WalkEntries(data, pos, remaining, acc) == WalkEntries(data, next, later, acc')
  {
  }

  /** At the end of the file the walk stops with the candidates so far. */
  lemma WalkAtEnd(data: seq<byte>, pos: nat, remaining: nat, acc: Candidates)
    requires pos >= |data|
    ensures WalkEntries(data, pos, remaining, acc) == Some(acc)
  {
  }

  /** The largest of a non-empty map's values. */
  function MaxValue<K>(m: map<K, int>): (r: int)
    requires m != map[]
    ensures r in m.Values && forall k :: k in m ==> m[k] <= r
  {
    HasKey(m);
    var k :| k in m;
    assert m[k] in m.Values;
    MaxExists(m.Values);
    var v :| v in m.Values && forall w :: w in m.Values ==> w <= v;
    assert forall k :: k in m ==> m[k] in m.Values;
    v
  }

  lemma HasKey<K>(m: map<K, int>)
    requires m != map[]
    ensures exists k :: k in m
  {
    if forall k :: k !in m {
      assert false;
    }
  }

  lemma HasElement(s: set<int>)
    requires s != {}
    ensures exists x :: x in s
  {
    if forall x :: x !in s {
      assert false;
    }
  }

  lemma MaxExists(s: set<int>)
    requires s != {}
    ensures exists v :: v in s && forall w :: w in s ==> w <= v
  {
    HasElement(s);
    var x :| x in s;
    if s == {x} {
      assert forall w :: w in s ==> w <= x;
    } else {
      var rest := s - {x};
      assert x in s && x !in rest;
      MaxExists(rest);
      var v :| v in rest && forall w :: w in rest ==> w <= v;
      var top := if x > v then x else v;
      forall w | w in s
        ensures w <= top
      {
        if w != x {
          assert w in rest;
        }
      }
      assert top in s;
    }
  }

  /** Context policy: the largest value among keys not ending in `_train`;
      failing that, the largest of all; `None` without candidates. */
  function ResolveContext(ctx: map<seq<byte>, int>): Option<int> {
    var nonTrain := map k | k in ctx && !EndsWith(k, TrainSuffix) :: ctx[k];
    if nonTrain != map[] then Some(MaxValue(nonTrain))
    else if ctx != map[] then Some(MaxValue(ctx))
    else None
  }

  /** The keys an architecture `arch` writes: `<arch>.context_length` is a
      context key, `<arch>.context_length_train` is one ending in `_train`,
      and `<arch>.block_count` is a block-count key only. */
  lemma ArchitectureKeys(arch: seq<byte>, ctxKey: seq<byte>, trainKey: seq<byte>, blockKey: seq<byte>)
    requires ctxKey == arch + ContextSuffix && trainKey == arch + ContextTrainSuffix
    requires blockKey == arch + BlockCountSuffix
    ensures IsContextKey(ctxKey) && !EndsWith(ctxKey, TrainSuffix)
    ensures IsContextKey(trainKey) && EndsWith(trainKey, TrainSuffix)
    ensures !IsContextKey(blockKey) && IsBlockCountKey(blockKey)
    ensures ctxKey != trainKey && ctxKey != blockKey && trainKey != blockKey
  {
    assert ctxKey[|arch|..] == ContextSuffix;
    assert trainKey[|arch|..] == ContextTrainSuffix;
    assert blockKey[|arch|..] == BlockCountSuffix;
    assert trainKey[|trainKey| - 6..] == ContextTrainSuffix[15..];
    assert ContextTrainSuffix[15..] == TrainSuffix;
    assert ctxKey[|ctxKey| - 1] != TrainSuffix[5];
    assert blockKey[|blockKey| - 1] != ContextSuffix[14];
    assert blockKey[|blockKey| - 1] != ContextTrainSuffix[20];
    assert |ctxKey| != |trainKey| && |ctxKey| != |blockKey| && |trainKey| != |blockKey|;
  }

  /** A training context never outweighs a plain one, however large. */
  lemma TrainContextIgnored(k1: seq<byte>, k2: seq<byte>, v1: int, v2: int)
    requires !EndsWith(k1, TrainSuffix) && EndsWith(k2, TrainSuffix)
    ensures ResolveContext(map[k1 := v1, k2 := v2]) == Some(v1)
  {
    var ctx := map[k1 := v1, k2 := v2];
    ContextPolicy(ctx);
    assert k1 in ctx && !EndsWith(k1, TrainSuffix);
  }

  /** Layer policy: the largest block count, `None` without candidates. */
  function ResolveLayers(layers: map<seq<byte>, int>): Option<int> {
    if layers != map[] then Some(MaxValue(layers)) else None
  }

  /** The context policy spelled out: with a key not ending in `_train`
      the result is the largest value among such keys; with only `_train`
      keys it is the largest of them; without candidates there is none. */
  lemma ContextPolicy(ctx: map<seq<byte>, int>)
    ensures (exists k :: k in ctx && !EndsWith(k, TrainSuffix)) ==>
      var r := ResolveContext(ctx);
      && r.Some?
      && (exists k :: k in ctx && !EndsWith(k, TrainSuffix) && ctx[k] == r.value)
      && (forall k :: k in ctx && !EndsWith(k, TrainSuffix) ==> ctx[k] <= r.value)
    ensures ctx != map[] && (forall k :: k in ctx ==> EndsWith(k, TrainSuffix)) ==>
      var r := ResolveContext(ctx);
      && r.Some?
      && (exists k :: k in ctx && ctx[k] == r.value)
      && (forall k :: k in ctx ==> ctx[k] <= r.value)
    ensures ResolveContext(ctx).None? <==> ctx == map[]
  {
    var nonTrain := map k | k in ctx && !EndsWith(k, TrainSuffix) :: ctx[k];
    if exists k :: k in ctx && !EndsWith(k, TrainSuffix) {
      var k :| k in ctx && !EndsWith(k, TrainSuffix);
      assert k in nonTrain;
      var v := MaxValue(nonTrain);
      var w :| w in nonTrain && nonTrain[w] == v;
      assert ctx[w] == v;
      assert ResolveContext(ctx) == Some(v);
      assert forall j :: j in ctx && !EndsWith(j, TrainSuffix) ==> j in nonTrain;
      assert !(forall j :: j in ctx ==> EndsWith(j, TrainSuffix));
    } else {
      assert nonTrain == map[];
      if ctx != map[] {
        var v := MaxValue(ctx);
        var w :| w in ctx && ctx[w] == v;
      }
    }
  }

  /** The layer policy: the largest block count, none without candidates. */
  lemma LayerPolicy(layers: map<seq<byte>, int>)
    ensures ResolveLayers(layers).None? <==> layers == map[]
    ensures layers != map[] ==>
      (exists k :: k in layers && layers[k] == ResolveLayers(layers).value) &&
      (forall k :: k in layers ==> layers[k] <= ResolveLayers(layers).value)
  {
    if layers != map[] {
      var v := MaxValue(layers);
      var w :| w in layers && layers[w] == v;
    }
  }

  /** A tag outside the format makes `skip_value` raise, and so
      `read_value_scalar` too. */
  lemma UnknownTypeRaises(data: seq<byte>, pos: nat, t: nat)
    requires t > TypeFloat64
    ensures SkipAt(data, pos, t).None?
    ensures ReadScalarAt(data, pos, t).ScalarFailed?
  {
  }

  /** A string value announcing `MaxRead` bytes or more makes `skip_value`
      raise, so the round that reads it fails, whatever the key. */
  lemma OverlongValueRaises(data: seq<byte>, pos: nat, acc: Candidates, key: seq<byte>, p1: nat)
    requires ReadStringAt(data, pos) == StringRead(key, p1)
    requires ReadUintAt(data, p1, 4) == Some(TypeString)
    requires p1 + 12 <= |data| && LeUint(data[p1 + 4..p1 + 12]) >= MaxRead
    ensures SkipAt(data, p1 + 4, TypeString).None?
    ensures RoundAt(data, pos, acc) == RoundFailed
    ensures forall remaining: nat :: remaining > 0 ==> WalkEntries(data, pos, remaining, acc).None?
  {
  }

  /** The dictionary `read_gguf_info` returns. */
  datatype GgufInfo = GgufInfo(ctx: Option<int>, layers: Option<int>, tensorCount: nat)

  const NoCandidates := Candidates(map[], map[])

  /** `read_gguf_info` on the whole file: the magic, the version (read and
      ignored), the tensor and key-value counts, then the walk. */
  function ReadInfo(data: seq<byte>): Option<GgufInfo> {
    if Available(data, 0, 4) != Magic then None
    else if |data| < 24 then None
    else
      var tensorCount := LeUint(data[8..16]);
      var kvCount := LeUint(data[16..24]);
      match WalkEntries(data, 24, kvCount, NoCandidates)
      case None => None
      case Some(c) => Some(GgufInfo(ResolveContext(c.ctx), ResolveLayers(c.layers), tensorCount))
  }
}
