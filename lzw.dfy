/** The PDF variant of LZW decoding (section 7.4.4 of ISO 32000-1): a code
    width of 9 to 12 bits, a clear code 256, an end code 257, and an
    optional early change of the code width.

    The bit reader the decoder draws its codes from is not part of this
    model; `Bits` stands for it: `get(pos, w)` is the `w`-bit code at bit
    offset `pos` of the data, and `size` is the number of bits in the data.
    A read that would go past the end fails. */
module Lzw {
  import opened Bytes

  const EOD: nat := 257
  const ClearCode: nat := 256
  const DicSize: nat := 4096
  const StartBits: nat := 9
  const StartSlot: nat := 258

  datatype Bits = Bits(size: nat, get: (nat, nat) -> nat)

  /** The decoder's state: the code width `bc`, the last assigned
      dictionary slot `cp` and the bit offset of the next code. */
  datatype Coder = Coder(bc: nat, cp: nat, pos: nat)

  /** The width in effect once the comparison value has reached `n`. */
  function WidthFor(n: nat): (w: nat)
    ensures StartBits <= w <= 12
  {
    if n < 512 then 9 else if n < 1024 then 10 else if n < 2048 then 11 else 12
  }

  function Cmp(cp: nat, early: bool): nat
  {
    if early then cp + 1 else cp
  }

  /** The decoder invariant: the slot in 257..4095 and the width the one
      its comparison value has stepped up to since the last reset. */
  ghost predicate Paced(s: Coder, early: bool)
  {
    StartSlot - 1 <= s.cp <= DicSize - 1 && s.bc == WidthFor(Cmp(s.cp, early))
  }

  /** `reset`: width 9 and slot 257, so the next update assigns 258. */
  function ResetOf(s: Coder, early: bool): (r: Coder)
    ensures r.bc == StartBits && r.cp == StartSlot - 1 && r.pos == s.pos
    ensures Paced(r, early)
  {
    Coder(StartBits, StartSlot - 1, s.pos)
  }

  /** `update` when the table has room (`cp < 4095`): the slot advances by
      one, and the width never shrinks. */
  function UpdateOf(s: Coder, early: bool): (r: Coder)
    requires Paced(s, early) && s.cp < DicSize - 1
    ensures r.cp == s.cp + 1 && r.pos == s.pos
    ensures Paced(r, early) && s.bc <= r.bc
  {
    var cmp := Cmp(s.cp + 1, early);
    var bc := if cmp == 512 then 10 else if cmp == 1024 then 11 else if cmp == 2048 then 12 else s.bc;
    Coder(bc, s.cp + 1, s.pos)
  }

  /** `update` changes the width exactly when the comparison value
      reaches 512, 1024 or 2048. */
  lemma UpdateWidth(s: Coder, early: bool)
    requires Paced(s, early) && s.cp < DicSize - 1
    ensures UpdateOf(s, early).bc != s.bc <==> Cmp(s.cp + 1, early) in {512, 1024, 2048}
  {
  }

  /** What `token` returns: a code and the state after reading it. */
  datatype Tok = Tok(code: nat, after: Coder)

  /** `token`: reads codes at the current width, resetting on each clear
      code, until a code other than 256 comes. */
  function TokenOf(bits: Bits, s: Coder, early: bool): (r: Res<Tok>)
    requires Paced(s, early)
    ensures r.Ok? ==> r.value.code != ClearCode && s.pos < r.value.after.pos <= bits.size && Paced(r.value.after, early)
    ensures r.Ok? ==> (r.value.after.bc, r.value.after.cp) == (s.bc, s.cp) ||
                      (r.value.after.bc, r.value.after.cp) == (StartBits, StartSlot - 1)
    decreases bits.size - s.pos
  {
    if s.pos + s.bc > bits.size then Panic
    else
      var c := bits.get(s.pos, s.bc);
      var s' := s.(pos := s.pos + s.bc);
      if c != ClearCode then Ok(Tok(c, s'))
      else TokenOf(bits, ResetOf(s', early), early)
  }

  /** The state `newLzwDecoder` starts from. */
  function Start(): Coder
  {
    Coder(StartBits, StartSlot - 1, 0)
  }

  // ---- The length pass (`CalculateLength`) ----

  /** Codes 0..255 have length 1, every other slot none yet. */
  function Lens0(): seq<nat>
  {
    seq(DicSize, i => if i <= 255 then 1 else 0)
  }

  /** The rest of the length pass from state `s` with slot lengths `lens`
      and `r` bytes counted so far; a new slot is one longer than the
      entry just counted. */
  function LengthsFrom(bits: Bits, early: bool, s: Coder, lens: seq<nat>, r: nat): (n: Res<nat>)
    requires Paced(s, early) && |lens| == DicSize
    ensures n.Ok? ==> r <= n.value
    decreases bits.size - s.pos
  {
    match TokenOf(bits, s, early)
    case Panic => Panic
    case Ok(t) =>
      if t.code == EOD then Ok(r)
      else if t.code >= DicSize then Panic
      else
        var r' := r + lens[t.code];
        if t.after.cp < DicSize - 1 then
          var s' := UpdateOf(t.after, early);
          LengthsFrom(bits, early, s', lens[s'.cp := lens[t.code] + 1], r')
        else LengthsFrom(bits, early, t.after, lens, r')
  }

  /** `CalculateLength`. */
  function LengthOf(bits: Bits, early: bool): Res<nat>
  {
    LengthsFrom(bits, early, Start(), Lens0(), 0)
  }

  // ---- The byte pass (`DecodeToSlice`) ----

  /** A dictionary slot: unassigned (Go's nil slice), a single byte, or
      the slice `out[k..e]` of the output buffer, which it aliases. */
  datatype Entry = Nil | Lit(b: byte) | Span(k: nat, e: nat)

  function Len(d: Entry): nat
  {
    match d
    case Nil => 0
    case Lit(_) => 1
    case Span(k, e) => if k <= e then e - k else 0
  }

  /** The slot lies inside a buffer of `n` bytes. */
  predicate Fits(d: Entry, n: nat)
  {
    d.Span? ==> d.k <= d.e <= n
  }

  predicate AllFit(dict: seq<Entry>, n: nat)
  {
    forall j | 0 <= j < |dict| :: Fits(dict[j], n)
  }

  /** Byte `i` of a slot, read from the buffer as it is now. */
  function At(d: Entry, out: seq<byte>, i: nat): byte
    requires Fits(d, |out|) && i < Len(d)
  {
    match d
    case Nil => 0
    case Lit(b) => b
    case Span(k, _) => out[k + i]
  }

  /** Codes 0..255 are the bytes themselves, every other slot unassigned. */
  function Dict0(): seq<Entry>
  {
    seq(DicSize, i requires 0 <= i => if i <= 255 then Lit(i as byte) else Nil)
  }

  /** The copy of slot `d` to `out[r..]`, from its byte `i` on, one byte at
      a time: a slot that overlaps the bytes being written reads the ones
      this copy has already written. */
  function Emit(out: seq<byte>, d: Entry, r: nat, i: nat): (t: seq<byte>)
    requires i <= Len(d) && r + (Len(d) - i) <= |out| && Fits(d, |out|)
    ensures |t| == |out|
    ensures forall j | 0 <= j < |out| && !(r <= j < r + Len(d) - i) :: t[j] == out[j]
    decreases Len(d) - i
  {
    if i == Len(d) then out else Emit(out[r := At(d, out, i)], d, r + 1, i + 1)
  }

  /** What `DecodeToSlice` ends with: the count it returns and the buffer. */
  datatype Out = Out(count: nat, buf: seq<byte>)

  /** The rest of the byte pass from state `s`, slots `dict`, buffer `out`
      and `r` bytes written; a write or a slice past the buffer panics. */
  function DecodeFrom(bits: Bits, early: bool, s: Coder, dict: seq<Entry>, out: seq<byte>, r: nat): (o: Res<Out>)
    requires Paced(s, early) && |dict| == DicSize && AllFit(dict, |out|) && r <= |out|
    ensures o.Ok? ==> r <= o.value.count <= |out| && |o.value.buf| == |out|
    decreases bits.size - s.pos, 0
  {
    match TokenOf(bits, s, early)
    case Panic => Panic
    case Ok(t) =>
      if t.code == EOD then Ok(Out(r, out))
      else if t.code >= DicSize then Panic
      else DecodeAt(bits, early, t, dict, out, r)
  }

  /** The byte pass once code `t` has been read: the slot's bytes, then
      the new slot while the table has room. */
  function DecodeAt(bits: Bits, early: bool, t: Tok, dict: seq<Entry>, out: seq<byte>, r: nat): (o: Res<Out>)
    requires Paced(t.after, early) && t.after.pos <= bits.size && t.code < DicSize
    requires |dict| == DicSize && AllFit(dict, |out|) && r <= |out|
    ensures o.Ok? ==> r <= o.value.count <= |out| && |o.value.buf| == |out|
    decreases bits.size - t.after.pos, 1
  {
    var d := dict[t.code];
    if r + Len(d) > |out| then Panic
    else
      var out' := Emit(out, d, r, 0);
      var r' := r + Len(d);
      if t.after.cp < DicSize - 1 then
        var s' := UpdateOf(t.after, early);
        if r' + 1 > |out| then Panic
        else DecodeFrom(bits, early, s', dict[s'.cp := Span(r, r' + 1)], out', r')
      else DecodeFrom(bits, early, t.after, dict, out', r')
  }

  /** `DecodeToSlice` on a buffer that starts as `out`. */
  function DecodeOf(bits: Bits, early: bool, out: seq<byte>): Res<Out>
  {
    DecodeFrom(bits, early, Start(), Dict0(), out, 0)
  }

  /** A length-pass result `l` and a byte-pass result `d` on a buffer of
      `n` bytes agree: a byte pass that completes writes `l` bytes, and
      one with a byte to spare completes. */
  ghost predicate Agree(l: Res<nat>, d: Res<Out>, n: nat)
  {
    (d.Ok? ==> l == Ok(d.value.count)) && (l.Ok? && l.value < n ==> d.Ok?)
  }

  /** The two passes agree: on slots whose lengths are the ones the
      length pass tracks, the byte pass writes exactly as many bytes as the
      length pass counts, and it cannot panic when the buffer has a byte
      more than that count. */
  lemma {:induction false} PassesAgree(bits: Bits, early: bool, s: Coder, dict: seq<Entry>, out: seq<byte>, r: nat, lens: seq<nat>)
    requires Paced(s, early) && |dict| == DicSize && AllFit(dict, |out|) && r <= |out|
    requires |lens| == DicSize && forall j | 0 <= j < DicSize :: Len(dict[j]) == lens[j]
    ensures Agree(LengthsFrom(bits, early, s, lens, r), DecodeFrom(bits, early, s, dict, out, r), |out|)
    decreases bits.size - s.pos
  {
    var tok := TokenOf(bits, s, early);
    var l, o := LengthsFrom(bits, early, s, lens, r), DecodeFrom(bits, early, s, dict, out, r);
    if tok.Panic? || tok.value.code >= DicSize {
      assert l.Panic? && o.Panic?;
    } else if tok.value.code == EOD {
      assert l == Ok(r) && o == Ok(Out(r, out));
    } else {
      var t := tok.value;
      var r' := r + lens[t.code];
      var s', lens' := t.after, lens;
      if t.after.cp < DicSize - 1 {
        s' := UpdateOf(t.after, early);
        lens' := lens[s'.cp := lens[t.code] + 1];
      }
      LengthsNext(bits, early, s, lens, r, t, s', lens', r');
      if r' > |out| || (t.after.cp < DicSize - 1 && r' + 1 > |out|) {
        DecodeOver(bits, early, s, dict, out, r, t);
      } else {
        var out' := Emit(out, dict[t.code], r, 0);
        var dict' := dict;
        if t.after.cp < DicSize - 1 {
          dict' := dict[s'.cp := Span(r, r' + 1)];
          assert forall j | 0 <= j < DicSize :: Len(dict'[j]) == lens'[j];
        }
        if t.after.cp < DicSize - 1 {
          DecodeGrow(bits, early, s, dict, out, r, t, s', dict', out', r');
        } else {
          DecodeFull(bits, early, s, dict, out, r, t, out', r');
        }
        PassesAgree(bits, early, s', dict', out', r', lens');
      }
    }
  }

  /** One step of the length pass. */
  lemma LengthsNext(bits: Bits, early: bool, s: Coder, lens: seq<nat>, r: nat, t: Tok, s': Coder, lens': seq<nat>, r': nat)
    requires Paced(s, early) && |lens| == DicSize
    requires TokenOf(bits, s, early) == Ok(t) && t.code != EOD && t.code < DicSize
    requires r' == r + lens[t.code]
    requires t.after.cp < DicSize - 1 ==> s' == UpdateOf(t.after, early) && lens' == lens[s'.cp := lens[t.code] + 1]
    requires t.after.cp >= DicSize - 1 ==> s' == t.after && lens' == lens
    ensures Paced(s', early) && s.pos < s'.pos && |lens'| == DicSize
    ensures LengthsFrom(bits, early, s, lens, r) == LengthsFrom(bits, early, s', lens', r')
  {
  }

  /** One step of the byte pass that neither writes nor slices past the
      buffer, when the table has room for the new slot. */
  lemma DecodeGrow(bits: Bits, early: bool, s: Coder, dict: seq<Entry>, out: seq<byte>, r: nat, t: Tok,
                   s': Coder, dict': seq<Entry>, out': seq<byte>, r': nat)
    requires Paced(s, early) && |dict| == DicSize && AllFit(dict, |out|) && r <= |out|
    requires TokenOf(bits, s, early) == Ok(t) && t.code != EOD && t.code < DicSize
    requires t.after.cp < DicSize - 1 && r' == r + Len(dict[t.code]) && r' + 1 <= |out|
    requires s' == UpdateOf(t.after, early) && dict' == dict[s'.cp := Span(r, r' + 1)]
    requires out' == Emit(out, dict[t.code], r, 0)
    ensures |out'| == |out| && AllFit(dict', |out'|)
    ensures DecodeFrom(bits, early, s, dict, out, r) == DecodeFrom(bits, early, s', dict', out', r')
  {
    AllFitSet(dict, |out|, s'.cp, Span(r, r' + 1));
    DecodeTok(bits, early, s, dict, out, r, t);
    DecodeAtGrow(bits, early, t, dict, out, r, s', dict', out', r');
  }

  /** The step of a code while the table has room, once it fits. */
  lemma DecodeAtGrow(bits: Bits, early: bool, t: Tok, dict: seq<Entry>, out: seq<byte>, r: nat,
                     s': Coder, dict': seq<Entry>, out': seq<byte>, r': nat)
    requires Paced(t.after, early) && t.after.pos <= bits.size && t.code < DicSize
    requires |dict| == DicSize && AllFit(dict, |out|) && r <= |out|
    requires t.after.cp < DicSize - 1 && r' == r + Len(dict[t.code]) && r' + 1 <= |out|
    requires s' == UpdateOf(t.after, early) && dict' == dict[s'.cp := Span(r, r' + 1)]
    requires out' == Emit(out, dict[t.code], r, 0) && AllFit(dict', |out'|)
    ensures DecodeAt(bits, early, t, dict, out, r) == DecodeFrom(bits, early, s', dict', out', r')
  {
  }

  /** Assigning a slot that fits keeps every slot fitting. */
  lemma AllFitSet(dict: seq<Entry>, n: nat, i: nat, d: Entry)
    requires AllFit(dict, n) && Fits(d, n) && i < |dict|
    ensures AllFit(dict[i := d], n)
  {
  }

  /** One step of the byte pass that does not write past the buffer, when
      the table is full. */
  lemma DecodeFull(bits: Bits, early: bool, s: Coder, dict: seq<Entry>, out: seq<byte>, r: nat, t: Tok,
                   out': seq<byte>, r': nat)
    requires Paced(s, early) && |dict| == DicSize && AllFit(dict, |out|) && r <= |out|
    requires TokenOf(bits, s, early) == Ok(t) && t.code != EOD && t.code < DicSize
    requires t.after.cp >= DicSize - 1 && r' == r + Len(dict[t.code]) && r' <= |out|
    requires out' == Emit(out, dict[t.code], r, 0)
    ensures |out'| == |out| && AllFit(dict, |out'|)
    ensures DecodeFrom(bits, early, s, dict, out, r) == DecodeFrom(bits, early, t.after, dict, out', r')
  {
    DecodeTok(bits, early, s, dict, out, r, t);
  }

  /** The byte pass panics when the entry does not fit the buffer, or
      when the new slot's slice would not. */
  lemma DecodeOver(bits: Bits, early: bool, s: Coder, dict: seq<Entry>, out: seq<byte>, r: nat, t: Tok)
    requires Paced(s, early) && |dict| == DicSize && AllFit(dict, |out|) && r <= |out|
    requires TokenOf(bits, s, early) == Ok(t) && t.code != EOD && t.code < DicSize
    requires r + Len(dict[t.code]) > |out| || (t.after.cp < DicSize - 1 && r + Len(dict[t.code]) + 1 > |out|)
    ensures DecodeFrom(bits, early, s, dict, out, r).Panic?
  {
    DecodeTok(bits, early, s, dict, out, r, t);
  }

  /** Reading a code other than the end code and inside the table hands
      the pass over to that code's step. */
  lemma DecodeTok(bits: Bits, early: bool, s: Coder, dict: seq<Entry>, out: seq<byte>, r: nat, t: Tok)
    requires Paced(s, early) && |dict| == DicSize && AllFit(dict, |out|) && r <= |out|
    requires TokenOf(bits, s, early) == Ok(t) && t.code != EOD && t.code < DicSize
    ensures DecodeFrom(bits, early, s, dict, out, r) == DecodeAt(bits, early, t, dict, out, r)
  {
  }

  /** `lzwDecoder`: the code width, the last assigned slot and the bit
      reader's offset, updated in place. */
  class Decoder {
    const bits: Bits
    const early: bool
    var bc: nat
    var cp: nat
    var pos: nat

    function State(): Coder
      reads this
    {
      Coder(bc, cp, pos)
    }

    ghost predicate Valid()
      reads this
    {
      Paced(State(), early)
    }

    /** `newLzwDecoder`. */
    constructor (bits: Bits, early: bool)
      ensures this.bits == bits && this.early == early
      ensures State() == Start() && Valid()
    {
      this.bits := bits;
      this.early := early;
      pos := 0;
      new;
      Reset();
    }

    /** `reset`. */
    method Reset()
      modifies this`bc, this`cp
      ensures State() == ResetOf(old(State()), early) && Valid()
    {
      bc := StartBits;
      cp := StartSlot - 1;
    }

    /** `update`: true, with the slot advanced, while the table has room. */
    method Update() returns (ok: bool)
      requires Valid()
      modifies this`bc, this`cp
      ensures ok <==> old(cp) < DicSize - 1
      ensures State() == if ok then UpdateOf(old(State()), early) else old(State())
      ensures Valid()
    {
      if cp < DicSize - 1 {
        cp := cp + 1;
        var cmp := cp;
        if early {
          cmp := cmp + 1;
        }
        if cmp == 512 {
          bc := 10;
        } else if cmp == 1024 {
          bc := 11;
        } else if cmp == 2048 {
          bc := 12;
        }
        return true;
      }
      return false;
    }

    /** `token`: the next code other than the clear code, resetting on
        each clear code. */
    method Token() returns (r: Res<nat>)
      requires Valid()
      modifies this`bc, this`cp, this`pos
      ensures Valid()
      ensures r.Ok? <==> TokenOf(bits, old(State()), early).Ok?
      ensures r.Ok? ==> r.value == TokenOf(bits, old(State()), early).value.code &&
                        State() == TokenOf(bits, old(State()), early).value.after
    {
      while true
        invariant Valid()
        invariant TokenOf(bits, old(State()), early) == TokenOf(bits, State(), early)
        decreases bits.size - pos
      {
        if pos + bc > bits.size {
          return Panic;
        }
        var c := bits.get(pos, bc);
        pos := pos + bc;
        if c != ClearCode {
          return Ok(c);
        }
        Reset();
      }
    }
  }

  /** `CalculateLength`: the number of bytes the byte pass writes. */
  method CalculateLength(bits: Bits, early: bool) returns (r: Res<nat>)
    ensures r == LengthOf(bits, early)
  {
    var lzw := new Decoder(bits, early);
    var dict := new nat[DicSize](i => if i <= 255 then 1 else 0);
    assert dict[..] == Lens0();
    var n := 0;
    while true
      invariant lzw.Valid() && lzw.bits == bits && lzw.early == early && dict.Length == DicSize
      invariant LengthOf(bits, early) == LengthsFrom(bits, early, lzw.State(), dict[..], n)
      decreases bits.size - lzw.pos
    {
      ghost var s0 := lzw.State();
      var c := lzw.Token();
      if c.Panic? {
        return Panic;
      }
      if c.value == EOD {
        return Ok(n);
      }
      if c.value >= DicSize {
        return Panic;
      }
      n := CountCode(lzw, dict, c.value, n, s0);
    }
  }

  /** The loop body of `CalculateLength` once code `c` has been read:
      its slot's length counted, and the new slot one byte longer while
      the table has room. */
  method CountCode(lzw: Decoder, dict: array<nat>, c: nat, n: nat, ghost s0: Coder) returns (n': nat)
    requires lzw.Valid() && dict.Length == DicSize && c < DicSize && c != EOD && Paced(s0, lzw.early)
    requires TokenOf(lzw.bits, s0, lzw.early) == Ok(Tok(c, lzw.State()))
    modifies lzw`bc, lzw`cp, dict
    ensures lzw.Valid() && lzw.pos == old(lzw.pos)
    ensures LengthsFrom(lzw.bits, lzw.early, s0, old(dict[..]), n) ==
            LengthsFrom(lzw.bits, lzw.early, lzw.State(), dict[..], n')
  {
    ghost var lens0 := dict[..];
    ghost var t := Tok(c, lzw.State());
    n' := n + dict[c];
    var ok := lzw.Update();
    if ok {
      dict[lzw.cp] := dict[c] + 1;
      assert dict[..] == lens0[lzw.cp := lens0[c] + 1];
    }
    LengthsNext(lzw.bits, lzw.early, s0, lens0, n, t, lzw.State(), dict[..], n');
  }

  /** The copy loop of `DecodeToSlice`: slot `d` written to `out[r..]`
      byte by byte, reading a slot that aliases `out` as it goes. */
  method EmitInto(out: array<byte>, d: Entry, r: nat)
    requires Fits(d, out.Length) && r + Len(d) <= out.Length
    modifies out
    ensures out[..] == Emit(old(out[..]), d, r, 0)
  {
    ghost var before := out[..];
    var w := r;
    for i := 0 to Len(d)
      invariant w == r + i
      invariant Emit(before, d, r, 0) == Emit(out[..], d, w, i)
    {
      out[w] := if d.Lit? then d.b else out[d.k + i];
      w := w + 1;
    }
  }

  /** `DecodeToSlice`: decodes into `out` and returns the number of bytes
      written; the slots past 255 alias the bytes already written. */
  method DecodeToSlice(bits: Bits, out: array<byte>, early: bool) returns (r: Res<nat>)
    modifies out
    ensures var o := DecodeOf(bits, early, old(out[..]));
            (r.Ok? <==> o.Ok?) && (r.Ok? ==> r.value == o.value.count && out[..] == o.value.buf)
  {
    var lzw := new Decoder(bits, early);
    var dict := new Entry[DicSize](i => if i <= 255 then Lit(i as byte) else Nil);
    assert dict[..] == Dict0();
    var n: nat := 0;
    ghost var o := DecodeOf(bits, early, out[..]);
    while true
      invariant lzw.Valid() && lzw.bits == bits && lzw.early == early && dict.Length == DicSize
      invariant AllFit(dict[..], out.Length) && n <= out.Length
      invariant o == DecodeFrom(bits, early, lzw.State(), dict[..], out[..], n)
      decreases bits.size - lzw.pos
    {
      ghost var s0, dict0, out0 := lzw.State(), dict[..], out[..];
      var c := lzw.Token();
      if c.Panic? {
        return Panic;
      }
      if c.value == EOD {
        return Ok(n);
      }
      if c.value >= DicSize {
        return Panic;
      }
      ghost var t := Tok(c.value, lzw.State());
      var k := n;
      var d := dict[c.value];
      if n + Len(d) > out.Length {
        DecodeOver(bits, early, s0, dict0, out0, k, t);
        return Panic;
      }
      EmitInto(out, d, n);
      n := n + Len(d);
      var ok := lzw.Update();
      if ok {
        if n + 1 > out.Length {
          DecodeOver(bits, early, s0, dict0, out0, k, t);
          return Panic;
        }
        dict[lzw.cp] := Span(k, n + 1);
        DecodeGrow(bits, early, s0, dict0, out0, k, t, lzw.State(), dict[..], out[..], n);
      } else {
        DecodeFull(bits, early, s0, dict0, out0, k, t, out[..], n);
      }
    }
  }

  function Zeros(n: nat): (z: seq<byte>)
    ensures |z| == n
  {
    seq(n, _ => 0)
  }

  /** `Decode`: exactly the `CalculateLength` bytes that `DecodeToSlice`
      writes into a zeroed buffer one byte longer, so that the last slot's
      slice `out[k:r+1]` stays inside it. */
  method Decode(bits: Bits, early: bool) returns (r: Res<seq<byte>>)
    ensures r.Ok? <==> LengthOf(bits, early).Ok?
    ensures r.Ok? ==> |r.value| == LengthOf(bits, early).value
    ensures r.Ok? ==> DecodeOf(bits, early, Zeros(|r.value| + 1)).Ok? &&
                      r.value == DecodeOf(bits, early, Zeros(|r.value| + 1)).value.buf[..|r.value|]
    ensures ClassicOf(bits, early).Ok? ==> r == ClassicOf(bits, early)
  {
    if ClassicOf(bits, early).Ok? {
      DecodeIsClassic(bits, early, ClassicOf(bits, early).value);
    }
    var n := CalculateLength(bits, early);
    if n.Panic? {
      return Panic;
    }
    var out := new byte[n.value + 1](_ => 0);
    assert out[..] == Zeros(n.value + 1);
    assert forall j | 0 <= j < DicSize :: Len(Dict0()[j]) == Lens0()[j];
    PassesAgree(bits, early, Start(), Dict0(), out[..], 0, Lens0());
    var m := DecodeToSlice(bits, out, early);
    return Ok(out[..m.value]);
  }

  // ---- Reference decoding with a table of byte strings ----

  /** The entry whose last byte is not known yet: the bytes just emitted,
      kept for `slot`. */
  datatype Pending = Pending(slot: nat, bytes: seq<byte>)

  /** The bytes code `c` stands for in a string table `known` with pending
      entry `pend`, if it stands for any: a literal, a complete entry, or
      the pending entry itself followed by its own first byte. */
  function Expand(c: nat, known: map<nat, seq<byte>>, pend: Option<Pending>): Option<seq<byte>>
  {
    if c <= 255 then Some([c as byte])
    else if c in known then Some(known[c])
    else if pend.Some? && c == pend.value.slot && pend.value.bytes != [] then
      Some(pend.value.bytes + [pend.value.bytes[0]])
    else None
  }

  /** LZW decoding over a table of strings, with the same code widths: each
      code's bytes complete the pending entry with their first byte, and
      become the new pending entry at the slot `update` advances to. A code
      that stands for nothing makes the stream malformed (`Panic`). A clear
      code is consumed by `TokenOf`, which resets only the width and the next
      slot: like `dict` in the decoder, `known` and `pend` carry over it. */
  function ClassicFrom(bits: Bits, early: bool, s: Coder, known: map<nat, seq<byte>>, pend: Option<Pending>,
                       acc: seq<byte>): (x: Res<seq<byte>>)
    requires Paced(s, early)
    ensures x.Ok? ==> acc <= x.value
    decreases bits.size - s.pos
  {
    match TokenOf(bits, s, early)
    case Panic => Panic
    case Ok(t) =>
      if t.code == EOD then Ok(acc)
      else
        match Expand(t.code, known, pend)
        case None => Panic
        case Some(e) =>
          if e == [] then Panic
          else
            var known' := if pend.Some? then known[pend.value.slot := pend.value.bytes + [e[0]]] else known;
            if t.after.cp < DicSize - 1 then
              var s' := UpdateOf(t.after, early);
              ClassicFrom(bits, early, s', known' - {s'.cp}, Some(Pending(s'.cp, e)), acc + e)
            else ClassicFrom(bits, early, t.after, known', None, acc + e)
  }

  function ClassicOf(bits: Bits, early: bool): Res<seq<byte>>
  {
    ClassicFrom(bits, early, Start(), map[], None, [])
  }

  /** What a slot copies to `out[r..]` when it ends at or one past `r`:
      its bytes, except that a byte at `r` itself is the first one the copy
      writes. */
  function Copied(out: seq<byte>, d: Entry, r: nat): seq<byte>
    requires Fits(d, |out|) && (d.Span? ==> d.k <= r && d.e <= r + 1)
  {
    match d
    case Nil => []
    case Lit(b) => [b]
    case Span(k, e) => if e <= r then out[k..e] else out[k..r] + [out[k]]
  }

  /** The copy of a slot that ends at or one past the write position
      writes `Copied` there and leaves the rest of the buffer alone. */
  lemma EmitCopies(out: seq<byte>, d: Entry, r: nat)
    requires Fits(d, |out|) && r + Len(d) <= |out| && (d.Span? ==> d.k <= r && d.e <= r + 1)
    ensures var t := Emit(out, d, r, 0);
            t[..r] == out[..r] && t[r..r + Len(d)] == Copied(out, d, r) && t[r + Len(d)..] == out[r + Len(d)..]
  {
    if d.Span? && Len(d) > 0 {
      SpanCopies(out, d, r);
    }
  }

  lemma SpanCopies(out: seq<byte>, d: Entry, r: nat)
    requires d.Span? && Len(d) > 0 && Fits(d, |out|) && r + Len(d) <= |out| && d.k <= r && d.e <= r + 1
    ensures Emit(out, d, r, 0)[r..r + Len(d)] == Copied(out, d, r)
  {
    var t := Emit(out, d, r, 0);
    EmitSpan(out, out, d, r, 0, r);
    var c := Copied(out, d, r);
    assert |c| == Len(d);
    forall j | 0 <= j < Len(d)
      ensures t[r..r + Len(d)][j] == c[j]
    {
      assert t[r + j] == CopyByte(out, d, r, r + j - r);
      if d.e <= r {
        assert c[j] == out[d.k + j];
      } else if d.k + j < r {
        assert c[j] == out[d.k..r][j];
      } else {
        assert c[j] == out[d.k];
      }
    }
  }

  /** Byte `j` of the overlapping copy of span `d` to `r`: the original
      byte `k + j` when that lies before `r`, and otherwise (the one byte
      at `r`) the first byte copied. */
  function CopyByte(orig: seq<byte>, d: Entry, r: nat, j: nat): byte
    requires d.Span? && d.k <= r < |orig|
  {
    if d.k + j < r then orig[d.k + j] else orig[d.k]
  }

  lemma {:induction false} EmitSpan(orig: seq<byte>, cur: seq<byte>, d: Entry, r: nat, i: nat, w: nat)
    requires d.Span? && d.k <= r < |orig| && d.k <= d.e <= r + 1 && r + Len(d) <= |orig| && i <= Len(d)
    requires w == r + i && |cur| == |orig| && cur[..r] == orig[..r] && (i == 0 ==> cur == orig)
    requires forall p | r <= p < w :: cur[p] == CopyByte(orig, d, r, p - r)
    ensures forall p | r <= p < r + Len(d) :: Emit(cur, d, w, i)[p] == CopyByte(orig, d, r, p - r)
    decreases Len(d) - i
  {
    if i < Len(d) {
      var v := At(d, cur, i);
      if d.k + i < r {
        assert cur[..r][d.k + i] == cur[d.k + i];
      } else if i > 0 {
        assert cur[r] == CopyByte(orig, d, r, r - r);
      }
      assert v == CopyByte(orig, d, r, i);
      var cur' := cur[w := v];
      assert cur'[..r] == cur[..r];
      EmitSpan(orig, cur', d, r, i + 1, w + 1);
      assert Emit(cur, d, w, i) == Emit(cur', d, w + 1, i + 1);
    } else {
      assert Emit(cur, d, w, i) == cur;
    }
  }

  /** Slot `d` holds `b` in a buffer whose first `r` bytes are final. */
  ghost predicate Holds(d: Entry, out: seq<byte>, r: nat, b: seq<byte>)
  {
    d.Span? && d.k <= d.e <= r <= |out| && out[d.k..d.e] == b
  }

  /** The aliasing slots of the byte pass represent the string table:
      codes 0..255 are literals, every complete entry is a span of the
      final bytes, and the pending entry is the span of the last bytes
      written plus the byte about to be written. */
  ghost predicate Mirrors(dict: seq<Entry>, out: seq<byte>, r: nat, known: map<nat, seq<byte>>, pend: Option<Pending>)
  {
    |dict| == DicSize && r <= |out| &&
    (forall c | 0 <= c <= 255 :: dict[c] == Lit(c as byte)) &&
    (forall j | j in known :: 256 <= j < DicSize && known[j] != [] && Holds(dict[j], out, r, known[j])) &&
    (pend.Some? ==>
       var b := pend.value.bytes;
       256 <= pend.value.slot < DicSize && pend.value.slot !in known && b != [] && |b| <= r < |out| &&
       dict[pend.value.slot] == Span(r - |b|, r + 1) && out[r - |b|..r] == b)
  }

  /** The slot a code reads in the byte pass copies exactly the bytes the
      code stands for in the string table. */
  lemma ExpandCopies(dict: seq<Entry>, out: seq<byte>, r: nat, known: map<nat, seq<byte>>, pend: Option<Pending>, c: nat)
    requires Mirrors(dict, out, r, known, pend) && Expand(c, known, pend).Some?
    ensures c < DicSize && Fits(dict[c], |out|)
    ensures dict[c].Span? ==> dict[c].k <= r && dict[c].e <= r + 1
    ensures Copied(out, dict[c], r) == Expand(c, known, pend).value && Len(dict[c]) == |Expand(c, known, pend).value|
  {
    if c <= 255 {
    } else if c in known {
      assert Holds(dict[c], out, r, known[c]);
    } else {
      var b := pend.value.bytes;
      assert out[r - |b|..r] == b;
    }
  }

  /** A slot that holds its bytes keeps them when writing continues past
      the final part of the buffer. */
  lemma HoldsLater(d: Entry, out: seq<byte>, r: nat, b: seq<byte>, out': seq<byte>, r': nat)
    requires Holds(d, out, r, b) && |out'| == |out| && out'[..r] == out[..r] && r <= r' <= |out'|
    ensures Holds(d, out', r', b)
  {
    assert out'[d.k..d.e] == out'[..r][d.k..d.e];
    assert out[d.k..d.e] == out[..r][d.k..d.e];
  }

  /** The table with the pending entry completed by the first byte `x`
      of the next code's bytes. */
  function Completed(known: map<nat, seq<byte>>, pend: Option<Pending>, x: byte): map<nat, seq<byte>>
  {
    if pend.Some? then known[pend.value.slot := pend.value.bytes + [x]] else known
  }

  /** Once the next code's bytes `e` are written after the first `r`
      bytes, every entry of the completed table is a span of final bytes. */
  lemma CompletedHolds(dict: seq<Entry>, out: seq<byte>, r: nat, known: map<nat, seq<byte>>, pend: Option<Pending>,
                       e: seq<byte>, out': seq<byte>, r': nat)
    requires Mirrors(dict, out, r, known, pend) && e != [] && r' == r + |e| <= |out'| == |out|
    requires out'[..r] == out[..r] && out'[r..r'] == e
    ensures var known' := Completed(known, pend, e[0]);
            forall j | j in known' :: 256 <= j < DicSize && known'[j] != [] && Holds(dict[j], out', r', known'[j])
  {
    var known' := Completed(known, pend, e[0]);
    forall j | j in known'
      ensures 256 <= j < DicSize && known'[j] != [] && Holds(dict[j], out', r', known'[j])
    {
      if pend.Some? && j == pend.value.slot {
        var b := pend.value.bytes;
        assert out'[r - |b|..r + 1] == out'[..r][r - |b|..r] + [out'[r..r'][0]];
        assert out[r - |b|..r] == out[..r][r - |b|..r];
      } else {
        HoldsLater(dict[j], out, r, known[j], out', r');
      }
    }
  }

  /** The step that advances the table: the new slot's span is the bytes
      just written and becomes the pending entry. */
  lemma MirrorsGrow(dict: seq<Entry>, out: seq<byte>, r: nat, known: map<nat, seq<byte>>, pend: Option<Pending>,
                    e: seq<byte>, out': seq<byte>, r': nat, cp: nat)
    requires Mirrors(dict, out, r, known, pend) && e != [] && r' == r + |e| && r' + 1 <= |out'| == |out|
    requires out'[..r] == out[..r] && out'[r..r'] == e && 256 <= cp < DicSize
    ensures Mirrors(dict[cp := Span(r, r' + 1)], out', r', Completed(known, pend, e[0]) - {cp}, Some(Pending(cp, e)))
  {
    CompletedHolds(dict, out, r, known, pend, e, out', r');
  }

  /** The step with a full table: the pending entry is completed and no
      new one starts. */
  lemma MirrorsFull(dict: seq<Entry>, out: seq<byte>, r: nat, known: map<nat, seq<byte>>, pend: Option<Pending>,
                    e: seq<byte>, out': seq<byte>, r': nat)
    requires Mirrors(dict, out, r, known, pend) && e != [] && r' == r + |e| <= |out'| == |out|
    requires out'[..r] == out[..r] && out'[r..r'] == e
    ensures Mirrors(dict, out', r', Completed(known, pend, e[0]), None)
  {
    CompletedHolds(dict, out, r, known, pend, e, out', r');
  }

  /** A reference decoding that completes has a next code, and that code,
      unless it ends the data, stands for some bytes. */
  lemma ClassicShape(bits: Bits, early: bool, s: Coder, known: map<nat, seq<byte>>, pend: Option<Pending>, acc: seq<byte>)
    requires Paced(s, early) && ClassicFrom(bits, early, s, known, pend, acc).Ok?
    ensures TokenOf(bits, s, early).Ok?
    ensures TokenOf(bits, s, early).value.code == EOD ==> ClassicFrom(bits, early, s, known, pend, acc) == Ok(acc)
    ensures TokenOf(bits, s, early).value.code != EOD ==>
              var c := TokenOf(bits, s, early).value.code;
              Expand(c, known, pend).Some? && Expand(c, known, pend).value != []
  {
  }

  lemma ClassicGrow(bits: Bits, early: bool, s: Coder, known: map<nat, seq<byte>>, pend: Option<Pending>, acc: seq<byte>,
                    t: Tok, e: seq<byte>, s': Coder)
    requires Paced(s, early) && TokenOf(bits, s, early) == Ok(t) && t.code != EOD
    requires Expand(t.code, known, pend) == Some(e) && e != []
    requires t.after.cp < DicSize - 1 && s' == UpdateOf(t.after, early)
    ensures ClassicFrom(bits, early, s, known, pend, acc) ==
            ClassicFrom(bits, early, s', Completed(known, pend, e[0]) - {s'.cp}, Some(Pending(s'.cp, e)), acc + e)
  {
  }

  lemma ClassicFull(bits: Bits, early: bool, s: Coder, known: map<nat, seq<byte>>, pend: Option<Pending>, acc: seq<byte>,
                    t: Tok, e: seq<byte>)
    requires Paced(s, early) && TokenOf(bits, s, early) == Ok(t) && t.code != EOD
    requires Expand(t.code, known, pend) == Some(e) && e != []
    requires t.after.cp >= DicSize - 1
    ensures ClassicFrom(bits, early, s, known, pend, acc) ==
            ClassicFrom(bits, early, t.after, Completed(known, pend, e[0]), None, acc + e)
  {
  }

  lemma DecodeEnd(bits: Bits, early: bool, s: Coder, dict: seq<Entry>, out: seq<byte>, r: nat)
    requires Paced(s, early) && |dict| == DicSize && AllFit(dict, |out|) && r <= |out|
    requires TokenOf(bits, s, early).Ok? && TokenOf(bits, s, early).value.code == EOD
    ensures DecodeFrom(bits, early, s, dict, out, r) == Ok(Out(r, out))
  {
  }

  /** The byte pass ended with `x` as the bytes it wrote. */
  ghost predicate Produces(o: Out, x: seq<byte>)
  {
    o.count == |x| <= |o.buf| && o.buf[..o.count] == x
  }

  /** The bytes one code writes: the output so far followed by the
      code's expansion. */
  lemma StepBytes(dict: seq<Entry>, out: seq<byte>, r: nat, known: map<nat, seq<byte>>, pend: Option<Pending>,
                  acc: seq<byte>, c: nat, e: seq<byte>)
    requires Mirrors(dict, out, r, known, pend) && out[..r] == acc
    requires Expand(c, known, pend) == Some(e) && r + |e| <= |out|
    ensures c < DicSize && Fits(dict[c], |out|) && Len(dict[c]) == |e|
    ensures var out' := Emit(out, dict[c], r, 0);
            |out'| == |out| && out'[..r] == out[..r] && out'[r..r + |e|] == e && out'[..r + |e|] == acc + e
  {
    ExpandCopies(dict, out, r, known, pend, c);
    var out' := Emit(out, dict[c], r, 0);
    EmitCopies(out, dict[c], r);
    assert out'[..r + |e|] == out'[..r] + out'[r..r + |e|];
  }

  /** On a code stream the reference decoding accepts, the aliasing byte
      pass with room for its output writes exactly the reference bytes. */
  lemma {:induction false} MatchesClassic(bits: Bits, early: bool, s: Coder, dict: seq<Entry>, out: seq<byte>, r: nat,
                                          known: map<nat, seq<byte>>, pend: Option<Pending>, acc: seq<byte>)
    requires Paced(s, early) && Mirrors(dict, out, r, known, pend) && AllFit(dict, |out|) && out[..r] == acc
    requires ClassicFrom(bits, early, s, known, pend, acc).Ok? && |ClassicFrom(bits, early, s, known, pend, acc).value| < |out|
    ensures DecodeFrom(bits, early, s, dict, out, r).Ok?
    ensures Produces(DecodeFrom(bits, early, s, dict, out, r).value, ClassicFrom(bits, early, s, known, pend, acc).value)
    decreases bits.size - s.pos, 1
  {
    ClassicShape(bits, early, s, known, pend, acc);
    var t := TokenOf(bits, s, early).value;
    if t.code == EOD {
      DecodeEnd(bits, early, s, dict, out, r);
    } else {
      var e := Expand(t.code, known, pend).value;
      if t.after.cp < DicSize - 1 {
        var s' := UpdateOf(t.after, early);
        ClassicGrow(bits, early, s, known, pend, acc, t, e, s');
        MatchesGrow(bits, early, s, dict, out, r, known, pend, acc, t, e, s');
      } else {
        ClassicFull(bits, early, s, known, pend, acc, t, e);
        MatchesFull(bits, early, s, dict, out, r, known, pend, acc, t, e);
      }
    }
  }

  /** One code while the table still grows. */
  lemma {:induction false} MatchesGrow(bits: Bits, early: bool, s: Coder, dict: seq<Entry>, out: seq<byte>, r: nat,
                                       known: map<nat, seq<byte>>, pend: Option<Pending>, acc: seq<byte>,
                                       t: Tok, e: seq<byte>, s': Coder)
    requires Paced(s, early) && Mirrors(dict, out, r, known, pend) && AllFit(dict, |out|) && out[..r] == acc
    requires TokenOf(bits, s, early) == Ok(t) && t.code != EOD && Expand(t.code, known, pend) == Some(e) && e != []
    requires t.after.cp < DicSize - 1 && s' == UpdateOf(t.after, early)
    requires ClassicFrom(bits, early, s', Completed(known, pend, e[0]) - {s'.cp}, Some(Pending(s'.cp, e)), acc + e).Ok?
    requires |ClassicFrom(bits, early, s', Completed(known, pend, e[0]) - {s'.cp}, Some(Pending(s'.cp, e)), acc + e).value| < |out|
    ensures DecodeFrom(bits, early, s, dict, out, r).Ok?
    ensures Produces(DecodeFrom(bits, early, s, dict, out, r).value,
                     ClassicFrom(bits, early, s', Completed(known, pend, e[0]) - {s'.cp}, Some(Pending(s'.cp, e)), acc + e).value)
    decreases bits.size - s.pos, 0
  {
    var r' := r + |e|;
    StepBytes(dict, out, r, known, pend, acc, t.code, e);
    var out' := Emit(out, dict[t.code], r, 0);
    var dict' := dict[s'.cp := Span(r, r' + 1)];
    DecodeGrow(bits, early, s, dict, out, r, t, s', dict', out', r');
    MirrorsGrow(dict, out, r, known, pend, e, out', r', s'.cp);
    MatchesClassic(bits, early, s', dict', out', r', Completed(known, pend, e[0]) - {s'.cp}, Some(Pending(s'.cp, e)), acc + e);
  }

  /** One code once the table is full. */
  lemma {:induction false} MatchesFull(bits: Bits, early: bool, s: Coder, dict: seq<Entry>, out: seq<byte>, r: nat,
                                       known: map<nat, seq<byte>>, pend: Option<Pending>, acc: seq<byte>,
                                       t: Tok, e: seq<byte>)
    requires Paced(s, early) && Mirrors(dict, out, r, known, pend) && AllFit(dict, |out|) && out[..r] == acc
    requires TokenOf(bits, s, early) == Ok(t) && t.code != EOD && Expand(t.code, known, pend) == Some(e) && e != []
    requires t.after.cp >= DicSize - 1
    requires ClassicFrom(bits, early, t.after, Completed(known, pend, e[0]), None, acc + e).Ok?
    requires |ClassicFrom(bits, early, t.after, Completed(known, pend, e[0]), None, acc + e).value| < |out|
    ensures DecodeFrom(bits, early, s, dict, out, r).Ok?
    ensures Produces(DecodeFrom(bits, early, s, dict, out, r).value,
                     ClassicFrom(bits, early, t.after, Completed(known, pend, e[0]), None, acc + e).value)
    decreases bits.size - s.pos, 0
  {
    var r' := r + |e|;
    StepBytes(dict, out, r, known, pend, acc, t.code, e);
    var out' := Emit(out, dict[t.code], r, 0);
    DecodeFull(bits, early, s, dict, out, r, t, out', r');
    MirrorsFull(dict, out, r, known, pend, e, out', r');
    MatchesClassic(bits, early, t.after, dict, out', r', Completed(known, pend, e[0]), None, acc + e);
  }

  /** Whenever the string-table decoding accepts a code stream, the length
      pass counts its bytes and the byte pass, given a zeroed buffer one
      byte longer, writes exactly those bytes. */
  lemma DecodeIsClassic(bits: Bits, early: bool, x: seq<byte>)
    requires ClassicOf(bits, early) == Ok(x)
    ensures LengthOf(bits, early) == Ok(|x|)
    ensures DecodeOf(bits, early, Zeros(|x| + 1)).Ok? && DecodeOf(bits, early, Zeros(|x| + 1)).value.buf[..|x|] == x
  {
    var out := Zeros(|x| + 1);
    assert Mirrors(Dict0(), out, 0, map[], None);
    assert AllFit(Dict0(), |out|);
    MatchesClassic(bits, early, Start(), Dict0(), out, 0, map[], None, []);
    assert forall j | 0 <= j < DicSize :: Len(Dict0()[j]) == Lens0()[j];
    PassesAgree(bits, early, Start(), Dict0(), out, 0, Lens0());
  }
}
