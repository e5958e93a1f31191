/** The reading procedures of model-info.py over an open binary file: a
    cursor that `read` and `seek` move, and the functions that walk a GGUF
    header with it. Each procedure is proved to compute what the matching
    function of `GgufFormat` says and to leave the cursor where that
    function says. An exception is an unsuccessful outcome (`false`,
    `None`, a failed variant); the cursor after one is not specified. */
module GgufReader {
  import opened Text
  import opened GgufFormat

  /** An open file in binary mode: its bytes and the current offset. */
  class Reader {
    const data: seq<byte>
    var pos: nat

    constructor (data: seq<byte>)
      ensures this.data == data && pos == 0
    {
      this.data := data;
      pos := 0;
    }

    /** `f.read(n)`: at most `n` bytes, fewer at the end of the file; `None`
        for the `OverflowError` it raises when `n` is `MaxRead` or more. */
    method Read(n: nat) returns (bs: Option<seq<byte>>)
      modifies this
      ensures bs.None? <==> n >= MaxRead
      ensures bs.None? ==> pos == old(pos)
      ensures bs.Some? ==> bs.value == Available(data, old(pos), n) && pos == old(pos) + |bs.value|
    {
      if n >= MaxRead {
        bs := None;
      } else if pos >= |data| {
        bs := Some([]);
      } else {
        var end := Min(pos + n, |data|);
        bs := Some(data[pos..end]);
        pos := end;
      }
    }

    /** `f.seek(n, 1)`: moves forward, even past the end of the file. */
    method Skip(n: nat)
      modifies this
      ensures pos == old(pos) + n
    {
      pos := pos + n;
    }
  }

  /** `struct.unpack("<I" or "<Q", f.read(width))[0]`: `None` when the read
      comes back short, which is where `struct.error` is raised. */
  method Unpack(f: Reader, width: nat) returns (r: Option<nat>)
    requires width == 4 || width == 8
    modifies f
    ensures r == ReadUintAt(f.data, old(f.pos), width)
    ensures r.Some? ==> f.pos == old(f.pos) + width
  {
    var bs := f.Read(width);
    if |bs.value| == width {
      r := Some(LeUint(bs.value));
    } else {
      r := None;
    }
  }

  /** Above this length `read_string` takes its "safety cap" branch, which
      reads exactly what the other branch reads. */
  const StringCap: nat := 1000000

  /** `read_string(f)`. */
  method ReadString(f: Reader) returns (r: StringRead)
    modifies f
    ensures r == ReadStringAt(f.data, old(f.pos))
    ensures r.EndOfFile? ==> f.pos == old(f.pos)
    ensures r.StringRead? ==> f.pos == r.next
  {
    var lenBytes := f.Read(8);
    if |lenBytes.value| == 0 {
      return EndOfFile;
    }
    if |lenBytes.value| < 8 {
      return StringFailed;
    }
    var length := LeUint(lenBytes.value);
    var text;
    if length > StringCap {
      text := f.Read(length);
    } else {
      text := f.Read(length);
    }
    if text.None? {
      return StringFailed;
    }
    r := StringRead(text.value, f.pos);
  }

  /** `skip_value(f, val_type)`; `false` when it raises. */
  method SkipValue(f: Reader, t: nat) returns (ok: bool)
    modifies f
    ensures ok <==> SkipAt(f.data, old(f.pos), t).Some?
    ensures ok ==> f.pos == SkipAt(f.data, old(f.pos), t).value
    decreases Rank(f.data, f.pos), 1
  {
    if t == TypeString {
      var s := ReadString(f);
      ok := !s.StringFailed?;
    } else if t == TypeArray {
      ok := SkipArray(f);
    } else {
      var w := FixedWidth(t);
      if w.Some? {
        f.Skip(w.value);
        ok := true;
      } else {
        ok := false;
      }
    }
  }

  /** The array branch of `skip_value`: the element type, the count, then
      one skip per element. */
  method SkipArray(f: Reader) returns (ok: bool)
    modifies f
    ensures ok <==> SkipAt(f.data, old(f.pos), TypeArray).Some?
    ensures ok ==> f.pos == SkipAt(f.data, old(f.pos), TypeArray).value
    decreases Rank(f.data, f.pos), 0
  {
    ghost var start := f.pos;
    var et := Unpack(f, 4);
    if et.None? {
      return false;
    }
    var count := Unpack(f, 8);
    if count.None? {
      return false;
    }
    assert SkipAt(f.data, start, TypeArray) == SkipElements(f.data, start + 12, et.value, count.value);
    var i: nat := 0;
    while i < count.value
      invariant i <= count.value
      invariant start + 12 <= |f.data| && f.pos >= start + 12
      invariant SkipAt(f.data, start, TypeArray) == SkipElements(f.data, f.pos, et.value, count.value - i)
      decreases count.value - i
    {
      ghost var before := f.pos;
      ghost var later: nat := count.value - i - 1;
      var elemOk := SkipValue(f, et.value);
      if !elemOk {
        SkipElementsFail(f.data, before, et.value, count.value - i);
        return false;
      }
      SkipElementsNext(f.data, before, et.value, count.value - i, later, f.pos);
      i := i + 1;
    }
    ok := true;
  }

  lemma SkipElementsFail(data: seq<byte>, pos: nat, t: nat, count: nat)
    requires count > 0 && SkipAt(data, pos, t).None?
    ensures SkipElements(data, pos, t, count).None?
  {
  }

  lemma SkipElementsNext(data: seq<byte>, pos: nat, t: nat, count: nat, later: nat, next: nat)
    requires count == later + 1 && SkipAt(data, pos, t) == Some(next)
    ensures SkipElements(data, pos, t, count) == SkipElements(data, next, t, later)
  {
  }

  /** `read_value_scalar(f, val_type)`. */
  method ReadValueScalar(f: Reader, t: nat) returns (r: ScalarRead)
    modifies f
    ensures r == ReadScalarAt(f.data, old(f.pos), t)
    ensures r.ScalarRead? ==> f.pos == r.next
  {
    if t == TypeUint32 || t == TypeInt32 {
      var u := Unpack(f, 4);
      if u.None? {
        return ScalarFailed;
      }
      r := ScalarRead(Some(if t == TypeInt32 then Signed(u.value, 4) else u.value), f.pos);
    } else if t == TypeUint64 || t == TypeInt64 {
      var u := Unpack(f, 8);
      if u.None? {
        return ScalarFailed;
      }
      r := ScalarRead(Some(if t == TypeInt64 then Signed(u.value, 8) else u.value), f.pos);
    } else {
      var ok := SkipValue(f, t);
      r := if ok then ScalarRead(None, f.pos) else ScalarFailed;
    }
  }

  /** `read_gguf_info` on an opened file. A file that does not start with
      the magic bytes is left after those four bytes, with nothing more
      read. */
  method ReadGgufInfo(f: Reader) returns (info: Option<GgufInfo>)
    requires f.pos == 0
    modifies f
    ensures info == ReadInfo(f.data)
    ensures Available(f.data, 0, 4) != Magic ==> f.pos == |Available(f.data, 0, 4)|
  {
    var magic := f.Read(4);
    if magic.value != Magic {
      return None;
    }
    var _ := f.Read(4);
    var tensorCount := Unpack(f, 8);
    if tensorCount.None? {
      return None;
    }
    var kvCount := Unpack(f, 8);
    if kvCount.None? {
      return None;
    }
    HeaderFields(f.data, tensorCount.value, kvCount.value);
    var ctx: map<seq<byte>, int> := map[];
    var layers: map<seq<byte>, int> := map[];
    ghost var walk := WalkEntries(f.data, 24, kvCount.value, NoCandidates);
    var i: nat := 0;
    while i < kvCount.value
      invariant i <= kvCount.value
      invariant walk == WalkEntries(f.data, f.pos, kvCount.value - i, Candidates(ctx, layers))
      decreases kvCount.value - i
    {
      ghost var p0 := f.pos;
      ghost var acc := Candidates(ctx, layers);
      ghost var later: nat := kvCount.value - i - 1;
      var round := ReadEntry(f, ctx, layers);
      if round.RoundEnd? {
        RoundEndWalk(f.data, p0, kvCount.value - i, acc);
        break;
      }
      if round.RoundFailed? {
        RoundFailedWalk(f.data, p0, kvCount.value - i, acc);
        return None;
      }
      WalkStep(f.data, p0, kvCount.value - i, later, acc, f.pos, round.acc);
      ctx, layers := round.acc.ctx, round.acc.layers;
      i := i + 1;
    }
    info := Some(GgufInfo(ResolveContext(ctx), ResolveLayers(layers), tensorCount.value));
  }

  /** One iteration of the key-value loop of `read_gguf_info`: the key, the
      type tag, then the value, decoded into the candidate dictionaries for
      a tracked key and skipped otherwise. */
  method ReadEntry(f: Reader, ctx: map<seq<byte>, int>, layers: map<seq<byte>, int>) returns (r: Round)
    modifies f
    ensures r == RoundAt(f.data, old(f.pos), Candidates(ctx, layers))
    ensures r.RoundNext? ==> f.pos == r.next
  {
    ghost var acc := Candidates(ctx, layers);
    var key := ReadString(f);
    if key.EndOfFile? {
      return RoundEnd;
    }
    if key.StringFailed? {
      return RoundFailed;
    }
    var valType := Unpack(f, 4);
    if valType.None? {
      return RoundFailed;
    }
    ghost var p2 := f.pos;
    var ok := true;
    var ctx', layers' := ctx, layers;
    if IsContextKey(key.text) {
      var v := ReadValueScalar(f, valType.value);
      if v.ScalarFailed? {
        ok := false;
      } else if v.value.Some? {
        ctx' := ctx[key.text := v.value.value];
      }
    } else if IsBlockCountKey(key.text) {
      var v := ReadValueScalar(f, valType.value);
      if v.ScalarFailed? {
        ok := false;
      } else if v.value.Some? {
        layers' := layers[key.text := v.value.value];
      }
    } else {
      ok := SkipValue(f, valType.value);
    }
    if !ok {
      return RoundFailed;
    }
    assert EntryStep(f.data, p2, key.text, valType.value, acc) == Stepped(f.pos, Candidates(ctx', layers'));
    r := RoundNext(f.pos, Candidates(ctx', layers'));
  }

  /** With the magic in place and the counts read, the result is the walk's. */
  lemma HeaderFields(data: seq<byte>, tensorCount: nat, kvCount: nat)
    requires Available(data, 0, 4) == Magic
    requires ReadUintAt(data, Min(8, |data|), 8) == Some(tensorCount)
    requires ReadUintAt(data, Min(8, |data|) + 8, 8) == Some(kvCount)
    ensures |data| >= 24
    ensures ReadInfo(data) ==
            match WalkEntries(data, 24, kvCount, NoCandidates)
            case None => None
            case Some(c) => Some(GgufInfo(ResolveContext(c.ctx), ResolveLayers(c.layers), tensorCount))
  {
  }

  lemma RoundEndWalk(data: seq<byte>, pos: nat, remaining: nat, acc: Candidates)
    requires remaining > 0 && ReadStringAt(data, pos).EndOfFile?
    ensures WalkEntries(data, pos, remaining, acc) == Some(acc)
  {
  }

  lemma RoundFailedWalk(data: seq<byte>, pos: nat, remaining: nat, acc: Candidates)
    requires remaining > 0 && RoundAt(data, pos, acc).RoundFailed?
    ensures WalkEntries(data, pos, remaining, acc) == None
  {
  }
}
