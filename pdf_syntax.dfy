/** The primitive parsers of pdfread.go: leading-digit numbers (`num`), the
    indirect-reference lookahead (`refToken`, section 7.3.10 of ISO 32000-1),
    fixed-count token reads (`tupel`), dictionaries (`dictionary`, section
    7.3.7) and arrays (`array`, section 7.3.6). The byte source is a
    `seq<byte>` and the reader's position an offset into it. */
module PdfSyntax {
  import opened Bytes
  import opened Lexer

  /** A PDF dictionary: name keys (with their leading '/') to raw, unresolved
      value bytes. */
  type Dict = map<seq<byte>, seq<byte>>

  /** MAX_PDF_ARRAYSIZE: the slot count `array` preallocates. */
  const MaxArraySize: nat := 1024

  // ---------------------------------------------------------------- num

  function DigitValue(b: byte): nat
    requires IsDigit(b)
  {
    (b - '0' as byte) as nat
  }

  /** The value of the leading digits of `n`, read after the digits `acc`
      already stands for. */
  function NumFrom(n: seq<byte>, acc: nat): nat
  {
    if n != [] && IsDigit(n[0]) then NumFrom(n[1..], acc * 10 + DigitValue(n[0])) else acc
  }

  /** What `num` computes: the value of the leading decimal digits, 0 when
      there are none. */
  function NumOf(n: seq<byte>): nat
  {
    NumFrom(n, 0)
  }

  /** `num`: accumulates digits until the first byte that is not a digit. */
  method Num(n: seq<byte>) returns (r: nat)
    ensures r == NumOf(n)
    ensures n == [] || !IsDigit(n[0]) ==> r == 0
  {
    r := 0;
    var i := 0;
    while i < |n|
      invariant i <= |n|
      invariant NumFrom(n[i..], r) == NumOf(n)
    {
      if IsDigit(n[i]) {
        assert n[i..][1..] == n[i + 1..];
        r := r * 10 + DigitValue(n[i]);
      } else {
        break;
      }
      i := i + 1;
    }
  }

  /** Reading on through a run of digits. */
  lemma {:induction false} NumFromDigits(a: seq<byte>, b: seq<byte>, acc: nat)
    requires forall i | 0 <= i < |a| :: IsDigit(a[i])
    ensures NumFrom(a + b, acc) == NumFrom(b, NumFrom(a, acc))
  {
    if a != [] {
      assert (a + b)[1..] == a[1..] + b;
      NumFromDigits(a[1..], b, acc * 10 + DigitValue(a[0]));
    } else {
      assert a + b == b;
    }
  }

  /** `num` stops at the first byte that is not a digit. */
  lemma {:induction false} NumFromStops(n: seq<byte>, m: seq<byte>, acc: nat, k: nat)
    requires k < |n| && !IsDigit(n[k])
    ensures NumFrom(n + m, acc) == NumFrom(n, acc)
  {
    if IsDigit(n[0]) {
      assert (n + m)[1..] == n[1..] + m;
      NumFromStops(n[1..], m, acc * 10 + DigitValue(n[0]), k - 1);
    }
  }

  /** `num` ignores everything after the first byte that is not a digit. */
  lemma NumOfIgnoresTail(n: seq<byte>, m: seq<byte>, k: nat)
    requires k < |n| && !IsDigit(n[k])
    ensures NumOf(n + m) == NumOf(n)
  {
    NumFromStops(n, m, 0, k);
  }

  /** `w` decimal digits of `k`, zero-padded on the left: the form of the
      offset field of an xref entry (section 7.5.4 of ISO 32000-1). */
  function PadDecimal(k: nat, w: nat): (r: seq<byte>)
    ensures |r| == w
    ensures forall i | 0 <= i < w :: IsDigit(r[i])
  {
    if w == 0 then [] else PadDecimal(k / 10, w - 1) + [(k % 10) as byte + '0' as byte]
  }

  /** `num` reads back a zero-padded field, whatever non-digit follows it. */
  lemma {:induction false} NumOfPadded(k: nat, w: nat, rest: seq<byte>)
    requires k < Pow10(w)
    requires rest == [] || !IsDigit(rest[0])
    ensures NumOf(PadDecimal(k, w) + rest) == k
  {
    if w == 0 {
      assert PadDecimal(k, w) + rest == rest;
    } else {
      var p := PadDecimal(k / 10, w - 1);
      var d := (k % 10) as byte + '0' as byte;
      NumOfPadded(k / 10, w - 1, []);
      assert p + [] == p;
      assert PadDecimal(k, w) + rest == p + ([d] + rest);
      NumFromDigits(p, [d] + rest, 0);
      assert ([d] + rest)[1..] == rest;
      assert DigitValue(d) == k % 10;
    }
  }

  // ---------------------------------------------------------------- refToken

  /** `refToken`: one token, or, when it starts with a digit and the second
      token after it is `R`, the whole `n g R` span as one token; otherwise
      the reader is put back right after the first token. */
  function RefToken(lex: Lex, s: seq<byte>, pos: nat): (t: Tok)
    ensures t.start == lex(s, pos).start && t.next == t.start + |t.text|
    ensures t.text == [] <==> lex(s, pos).text == []
    ensures t.text != [] ==> t.next <= |s| && t.text == s[t.start..t.next]
  {
    var t1 := lex(s, pos);
    if t1.text != [] && IsDigit(t1.text[0]) then
      var t2 := lex(s, t1.next);
      var t3 := lex(s, t2.next);
      if t3.text == [Ch('R')] then Tok(s[t1.start..t3.start + 1], t1.start, t3.start + 1)
      else t1
    else t1
  }

  /** The lookahead yields either the plain token or a three-token span that
      starts with a number and ends with the `R` token. */
  lemma RefTokenShape(lex: Lex, s: seq<byte>, pos: nat)
    ensures var t1 := lex(s, pos);
            var t3 := lex(s, lex(s, t1.next).next);
            var t := RefToken(lex, s, pos);
            (t.text != t1.text <==> t1.text != [] && IsDigit(t1.text[0]) && t3.text == [Ch('R')])
            && (t.text != t1.text ==>
                  t.text == s[t1.start..t3.next] && |t.text| > |t1.text| + 1 &&
                  t.text[..|t1.text|] == t1.text && t.text[|t.text| - 1] == Ch('R'))
  {
    var t1 := lex(s, pos);
    var t3 := lex(s, lex(s, t1.next).next);
    if t1.text != [] && IsDigit(t1.text[0]) && t3.text == [Ch('R')] {
      assert t3.start >= t1.next;
      assert s[t1.start..t3.start + 1][..|t1.text|] == s[t1.start..t1.next];
    }
  }

  // ---------------------------------------------------------------- tupel

  /** `count` successive tokens and the reader position after them. */
  function Tokens(lex: Lex, s: seq<byte>, pos: nat, count: nat): (r: (seq<seq<byte>>, nat))
    ensures |r.0| == count && pos <= r.1
  {
    if count == 0 then ([], pos)
    else
      var prev := Tokens(lex, s, pos, count - 1);
      var t := lex(s, prev.1);
      (prev.0 + [t.text], t.next)
  }

  /** `tupel`: reads `count` tokens into a fresh slice. */
  method Tupel(lex: Lex, s: seq<byte>, pos: nat, count: nat) returns (ts: seq<seq<byte>>, next: nat)
    ensures (ts, next) == Tokens(lex, s, pos, count)
  {
    var r := new seq<byte>[count];
    next := pos;
    for i := 0 to count
      invariant r[..i] == Tokens(lex, s, pos, i).0 && next == Tokens(lex, s, pos, i).1
    {
      var t := lex(s, next);
      r[i] := t.text;
      next := t.next;
    }
    assert r[..] == r[..count];
    ts := r[..];
  }

  // ---------------------------------------------------------------- dictionary

  /** Key/value pairs of a dictionary body, in source order; None as soon as a
      key token does not start with '/'. A value is read with the reference
      lookahead; a missing last value is empty. */
  function Pairs(lex: Lex, s: seq<byte>, pos: nat): Option<seq<(seq<byte>, seq<byte>)>>
    decreases |s| - pos
  {
    var t := lex(s, pos);
    if t.text == [] then Some([])
    else if t.text[0] != '/' as byte then None
    else
      var v := RefToken(lex, s, t.next);
      match Pairs(lex, s, v.next)
      case None => None
      case Some(rest) => Some([(t.text, v.text)] + rest)
  }

  /** The map of a list of pairs, each pair assigned in turn. */
  function ToMap(ps: seq<(seq<byte>, seq<byte>)>): Dict
  {
    if ps == [] then map[] else ToMap(ps[..|ps| - 1])[ps[|ps| - 1].0 := ps[|ps| - 1].1]
  }

  /** What `dictionary` returns: None (Go's nil) unless the bytes are framed
      by `<<` and `>>` and every key is a name. */
  function DictOf(lex: Lex, s: seq<byte>): Option<Dict>
  {
    if |s| < 4 then None
    else
      var e := |s| - 1;
      if s[0] != s[1] || s[0] != '<' as byte || s[e] != s[e - 1] || s[e] != '>' as byte then None
      else
        match Pairs(lex, s[2..e - 1], 0)
        case None => None
        case Some(ps) => Some(ToMap(ps))
  }

  function JoinPairs(acc: seq<(seq<byte>, seq<byte>)>, rest: Option<seq<(seq<byte>, seq<byte>)>>)
    : Option<seq<(seq<byte>, seq<byte>)>>
  {
    match rest
    case None => None
    case Some(r) => Some(acc + r)
  }

  lemma JoinStep(acc: seq<(seq<byte>, seq<byte>)>, p: (seq<byte>, seq<byte>),
                  rest: Option<seq<(seq<byte>, seq<byte>)>>)
    ensures JoinPairs(acc, JoinPairs([p], rest)) == JoinPairs(acc + [p], rest)
  {
    if rest.Some? {
      assert acc + ([p] + rest.value) == (acc + [p]) + rest.value;
    }
  }

  /** One key and value of `Pairs`, once the key is known to be a name. */
  lemma PairsUnfold(lex: Lex, s: seq<byte>, pos: nat)
    requires lex(s, pos).text != [] && lex(s, pos).text[0] == '/' as byte
    ensures var t := lex(s, pos);
            var v := RefToken(lex, s, t.next);
            Pairs(lex, s, pos) == JoinPairs([(t.text, v.text)], Pairs(lex, s, v.next))
  {
  }

  /** `dictionary`: fills a fresh map key by key. */
  method Dictionary(lex: Lex, s: seq<byte>) returns (d: Option<Dict>)
    ensures d == DictOf(lex, s)
  {
    if |s| < 4 {
      return None;
    }
    var e := |s| - 1;
    if s[0] != s[1] || s[0] != '<' as byte || s[e] != s[e - 1] || s[e] != '>' as byte {
      return None;
    }
    var body := s[2..e - 1];
    var r: Dict := map[];
    var pos := 0;
    ghost var acc: seq<(seq<byte>, seq<byte>)> := [];
    assert Pairs(lex, body, 0) == JoinPairs(acc, Pairs(lex, body, pos)) by {
      match Pairs(lex, body, 0)
      case None =>
      case Some(ps) => assert acc + ps == ps;
    }
    while true
      invariant pos <= |body|
      invariant Pairs(lex, body, 0) == JoinPairs(acc, Pairs(lex, body, pos))
      invariant r == ToMap(acc)
      decreases |body| - pos
    {
      var t := lex(body, pos);
      if t.text == [] {
        break;
      }
      if t.text[0] != '/' as byte {
        return None;
      }
      var v := RefToken(lex, body, t.next);
      PairsUnfold(lex, body, pos);
      JoinStep(acc, (t.text, v.text), Pairs(lex, body, v.next));
      r := r[t.text := v.text];
      assert (acc + [(t.text, v.text)])[..|acc|] == acc;
      acc := acc + [(t.text, v.text)];
      pos := v.next;
    }
    assert Pairs(lex, body, pos) == Some([]);
    assert acc + [] == acc;
    d := Some(r);
  }

  /** A key is in the map exactly when some pair has it. */
  lemma {:induction false} ToMapKeys(ps: seq<(seq<byte>, seq<byte>)>, k: seq<byte>)
    ensures k in ToMap(ps) <==> exists i :: 0 <= i < |ps| && ps[i].0 == k
  {
    if ps != [] {
      var init := ps[..|ps| - 1];
      ToMapKeys(init, k);
      if exists i :: 0 <= i < |init| && init[i].0 == k {
        var i :| 0 <= i < |init| && init[i].0 == k;
        assert ps[i].0 == k;
      }
      if exists i :: 0 <= i < |ps| && ps[i].0 == k {
        var i :| 0 <= i < |ps| && ps[i].0 == k;
        if i < |init| { assert init[i].0 == k; }
      }
    }
  }

  /** A repeated key keeps the value of its last occurrence. */
  lemma {:induction false} ToMapLastWins(ps: seq<(seq<byte>, seq<byte>)>, i: nat)
    requires i < |ps|
    requires forall j | i < j < |ps| :: ps[j].0 != ps[i].0
    ensures ps[i].0 in ToMap(ps) && ToMap(ps)[ps[i].0] == ps[i].1
  {
    if i < |ps| - 1 {
      var init := ps[..|ps| - 1];
      ToMapLastWins(init, i);
    }
  }

  /** Every key of a parsed dictionary is a name. */
  lemma {:induction false} PairsKeysAreNames(lex: Lex, s: seq<byte>, pos: nat)
    ensures Pairs(lex, s, pos).Some? ==>
      forall i | 0 <= i < |Pairs(lex, s, pos).value| ::
        Pairs(lex, s, pos).value[i].0 != [] && Pairs(lex, s, pos).value[i].0[0] == '/' as byte
    decreases |s| - pos
  {
    var t := lex(s, pos);
    if t.text != [] && t.text[0] == '/' as byte {
      PairsKeysAreNames(lex, s, RefToken(lex, s, t.next).next);
    }
  }

  /** Every key and value of a parsed dictionary is a slice of its body. */
  lemma {:induction false} PairsAreSlices(lex: Lex, s: seq<byte>, pos: nat)
    ensures Pairs(lex, s, pos).Some? ==>
      forall i | 0 <= i < |Pairs(lex, s, pos).value| :: Pairs(lex, s, pos).value[i].1 in Slices(s)
    decreases |s| - pos
  {
    var t := lex(s, pos);
    if t.text != [] && t.text[0] == '/' as byte {
      var v := RefToken(lex, s, t.next);
      PairsAreSlices(lex, s, v.next);
      if v.text == [] { SliceIn(s, 0, 0); assert s[0..0] == v.text; }
      else { SliceIn(s, v.start, v.next); }
    }
  }

  lemma {:induction false} ToMapValues(ps: seq<(seq<byte>, seq<byte>)>, k: seq<byte>)
    requires k in ToMap(ps)
    ensures exists i :: 0 <= i < |ps| && ps[i] == (k, ToMap(ps)[k])
  {
    var init := ps[..|ps| - 1];
    if ps[|ps| - 1].0 != k {
      ToMapValues(init, k);
      var i :| 0 <= i < |init| && init[i] == (k, ToMap(init)[k]);
      assert ps[i] == init[i];
    }
  }

  /** The outcome of `dictionary`, stated on the framing: nil for fewer than
      4 bytes or a missing `<<`/`>>` frame, `<<>>` is the empty map, and a
      parsed dictionary has only name keys whose values are slices of the
      input. */
  lemma DictOfFacts(lex: Lex, s: seq<byte>)
    ensures |s| < 4 ==> DictOf(lex, s) == None
    ensures (|s| >= 4 && (s[0] != '<' as byte || s[1] != '<' as byte ||
                          s[|s| - 1] != '>' as byte || s[|s| - 2] != '>' as byte)) ==> DictOf(lex, s) == None
    ensures s == ['<' as byte, '<' as byte, '>' as byte, '>' as byte] ==> DictOf(lex, s) == Some(map[])
    ensures DictOf(lex, s).Some? ==> forall k | k in DictOf(lex, s).value :: k != [] && k[0] == '/' as byte
    ensures DictOf(lex, s).Some? ==> forall k | k in DictOf(lex, s).value :: DictOf(lex, s).value[k] in Slices(s)
  {
    if s == ['<' as byte, '<' as byte, '>' as byte, '>' as byte] {
      assert s[2..|s| - 2] == [];
    }
    if DictOf(lex, s).Some? {
      var body := s[2..|s| - 2];
      var ps := Pairs(lex, body, 0).value;
      PairsKeysAreNames(lex, body, 0);
      PairsAreSlices(lex, body, 0);
      forall k | k in DictOf(lex, s).value
        ensures k != [] && k[0] == '/' as byte && DictOf(lex, s).value[k] in Slices(s)
      {
        ToMapValues(ps, k);
        SliceIn(s, 2, |s| - 2);
        SlicesTrans(DictOf(lex, s).value[k], body, s);
      }
    }
  }

  // ---------------------------------------------------------------- array

  /** The successive lookahead tokens of an array body, up to the first empty one. */
  function Elements(lex: Lex, s: seq<byte>, pos: nat): (r: seq<seq<byte>>)
    ensures forall i | 0 <= i < |r| :: r[i] != []
    decreases |s| - pos
  {
    var t := RefToken(lex, s, pos);
    if t.text == [] then [] else [t.text] + Elements(lex, s, t.next)
  }

  lemma ElementsStep(lex: Lex, s: seq<byte>, pos: nat, done: seq<seq<byte>>, all: seq<seq<byte>>)
    requires RefToken(lex, s, pos).text != []
    requires all == done + Elements(lex, s, pos)
    ensures all == (done + [RefToken(lex, s, pos).text]) + Elements(lex, s, RefToken(lex, s, pos).next)
  {
    var t := RefToken(lex, s, pos);
    assert done + ([t.text] + Elements(lex, s, t.next)) == (done + [t.text]) + Elements(lex, s, t.next);
  }

  /** What `array` returns: nil unless framed by `[` and `]`, nil for an
      array without elements, and a panic when the elements do not fit the
      1024 slots (the terminating empty token needs one). */
  function ArrayOf(lex: Lex, s: seq<byte>): Res<Option<seq<seq<byte>>>>
  {
    if |s| < 2 || s[0] != '[' as byte || s[|s| - 1] != ']' as byte then Ok(None)
    else
      var els := Elements(lex, s[1..|s| - 1], 0);
      if |els| >= MaxArraySize then Panic
      else if els == [] then Ok(None)
      else Ok(Some(els))
  }

  /** `array`: stores each element into a preallocated slice of 1024 slots. */
  method Array(lex: Lex, s: seq<byte>) returns (a: Res<Option<seq<seq<byte>>>>)
    ensures a == ArrayOf(lex, s)
  {
    if |s| < 2 || s[0] != '[' as byte || s[|s| - 1] != ']' as byte {
      return Ok(None);
    }
    var body := s[1..|s| - 1];
    var r := new seq<byte>[MaxArraySize];
    var b := 0;
    var pos := 0;
    assert r[..0] + Elements(lex, body, 0) == Elements(lex, body, 0);
    while true
      invariant pos <= |body| && b <= MaxArraySize
      invariant Elements(lex, body, 0) == r[..b] + Elements(lex, body, pos)
      decreases |body| - pos
    {
      if b >= MaxArraySize {
        return Panic;
      }
      var t := RefToken(lex, body, pos);
      r[b] := t.text;
      if t.text == [] {
        break;
      }
      ElementsStep(lex, body, pos, r[..b], Elements(lex, body, 0));
      assert r[..b + 1] == r[..b] + [t.text];
      b := b + 1;
      pos := t.next;
    }
    assert Elements(lex, body, pos) == [];
    assert Elements(lex, body, 0) == r[..b];
    if b == 0 {
      return Ok(None);
    }
    a := Ok(Some(r[..b]));
  }

  lemma {:induction false} ElementsAreSlices(lex: Lex, s: seq<byte>, pos: nat)
    ensures forall i | 0 <= i < |Elements(lex, s, pos)| :: Elements(lex, s, pos)[i] in Slices(s)
    decreases |s| - pos
  {
    var t := RefToken(lex, s, pos);
    if t.text != [] {
      ElementsAreSlices(lex, s, t.next);
      SliceIn(s, t.start, t.next);
    }
  }

  /** The outcome of `array`: a non-nil result holds between 1 and 1023
      non-empty elements, each a slice of the input, and an input not framed
      by `[`...`]` gives nil. */
  lemma ArrayOfFacts(lex: Lex, s: seq<byte>)
    ensures (|s| < 2 || s[0] != '[' as byte || s[|s| - 1] != ']' as byte) ==> ArrayOf(lex, s) == Ok(None)
    ensures ArrayOf(lex, s).Ok? && ArrayOf(lex, s).value.Some? ==>
      var a := ArrayOf(lex, s).value.value;
      0 < |a| < MaxArraySize &&
      forall i | 0 <= i < |a| :: a[i] != [] && a[i] in Slices(s)
  {
    if |s| >= 2 && s[0] == '[' as byte && s[|s| - 1] == ']' as byte {
      var body := s[1..|s| - 1];
      ElementsAreSlices(lex, body, 0);
      SliceIn(s, 1, |s| - 1);
      forall i | 0 <= i < |Elements(lex, body, 0)| ensures Elements(lex, body, 0)[i] in Slices(s) {
        SlicesTrans(Elements(lex, body, 0)[i], body, s);
      }
    }
  }
}
