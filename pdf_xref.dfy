/** The cross-reference machinery of pdfread.go: skipping an xref section
    (`xrefSkip`), following the `/Prev` chain of incremental updates and
    replaying the fixed 20-byte entries into one object map (`xrefRead`,
    sections 7.5.4 to 7.5.6 of ISO 32000-1), and the trailer steps of `Load`. */
module PdfXref {
  import opened Bytes
  import opened Lexer
  import opened PdfSyntax

  /** MAX_PDF_UPDATES: the slots of the `back` array of section offsets. */
  const MaxUpdates: nat := 1024

  const XrefKeyword: seq<byte> := ['x' as byte, 'r' as byte, 'e' as byte, 'f' as byte]
  const TrailerKeyword: seq<byte> := ['t' as byte, 'r' as byte, 'a' as byte, 'i' as byte, 'l' as byte, 'e' as byte, 'r' as byte]
  /** The type byte `n` of an in-use entry. */
  const InUse: byte := 110
  const PrevKey: seq<byte> := ['/' as byte, 'P' as byte, 'r' as byte, 'e' as byte, 'v' as byte]


  /** One subsection header `first count` and the offset of its entry bytes
      (right after the line end that follows the header). */
  datatype Subsection = Subsection(first: nat, count: nat, data: nat)

  /** The subsections from `q` on, and the offset of the first token that
      does not start with a digit (where the section ends). Reading a token
      past the end of the data yields an empty token, whose first byte Go
      then indexes: a panic. */
  function SubsectionsFrom(lex: Lex, s: seq<byte>, q: nat): (r: Res<(seq<Subsection>, nat)>)
    ensures r.Ok? ==> q < |s| && q <= r.value.1 < |s|
    decreases |s| - q
  {
    var t := lex(s, q);
    if t.text == [] then Panic
    else if !IsDigit(t.text[0]) then Ok(([], t.start))
    else
      var c := lex(s, t.next);
      var data := SkipLE(s, c.next);
      match SubsectionsFrom(lex, s, data + NumOf(c.text) * 20)
      case Panic => Panic
      case Ok(rest) => Ok(([Subsection(NumOf(t.text), NumOf(c.text), data)] + rest.0, rest.1))
  }

  /** The entry bytes of every subsection lie inside the data: the token
      after them is not empty. */
  lemma {:induction false} SubsectionsFit(lex: Lex, s: seq<byte>, q: nat)
    requires SubsectionsFrom(lex, s, q).Ok?
    ensures SubsFit(s, SubsectionsFrom(lex, s, q).value.0)
    decreases |s| - q
  {
    var t := lex(s, q);
    if IsDigit(t.text[0]) {
      var c := lex(s, t.next);
      var data := SkipLE(s, c.next);
      var next := data + NumOf(c.text) * 20;
      SubsectionsFit(lex, s, next);
      var rest := SubsectionsFrom(lex, s, next).value.0;
      var sub := Subsection(NumOf(t.text), NumOf(c.text), data);
      assert SubsectionsFrom(lex, s, next).Ok?;
      assert sub.data + 20 * sub.count == next < |s|;
      assert SubsectionsFrom(lex, s, q).value.0 == [sub] + rest;
      forall i | 0 <= i < |[sub] + rest|
        ensures ([sub] + rest)[i].data + 20 * ([sub] + rest)[i].count <= |s|
      {
        if i > 0 {
          assert ([sub] + rest)[i] == rest[i - 1];
        }
      }
    }
  }

  /** Where a section ends, or the panic. */
  function SkipEnd(lex: Lex, s: seq<byte>, q: nat): Res<int>
  {
    match SubsectionsFrom(lex, s, q)
    case Panic => Panic
    case Ok(r) => Ok(r.1)
  }

  /** What `xrefSkip` returns for a section at `x`: -1 unless the first
      token is `xref`, otherwise the offset of the token after the section. */
  function XrefSkipOf(lex: Lex, s: seq<byte>, x: nat): Res<int>
  {
    var t := lex(s, x);
    if t.text != XrefKeyword then Ok(-1) else SkipEnd(lex, s, t.next)
  }

  /** `xrefSkip`: steps over each subsection header and its entry bytes. */
  method XrefSkip(lex: Lex, s: seq<byte>, x: nat) returns (r: Res<int>)
    ensures r == XrefSkipOf(lex, s, x)
  {
    var t := lex(s, x);
    if t.text != XrefKeyword {
      return Ok(-1);
    }
    var q := t.next;
    while true
      invariant SkipEnd(lex, s, q) == SkipEnd(lex, s, t.next)
      decreases |s| - q
    {
      var u := lex(s, q);
      if u.text == [] {
        return Panic;
      }
      if !IsDigit(u.text[0]) {
        q := u.start;
        break;
      }
      var c := lex(s, u.next);
      var data := SkipLE(s, c.next);
      var n := Num(c.text);
      q := data + n * 20;
    }
    r := Ok(q);
  }

  /** The section at `x` is well formed: it starts with `xref` and its
      subsections end at a `trailer` token. */
  predicate SectionOk(lex: Lex, s: seq<byte>, x: nat)
  {
    var t := lex(s, x);
    t.text == XrefKeyword && SubsectionsFrom(lex, s, t.next).Ok? &&
    lex(s, SubsectionsFrom(lex, s, t.next).value.1).text == TrailerKeyword
  }

  /** The subsections of a well-formed section. */
  function SectionSubs(lex: Lex, s: seq<byte>, x: nat): (subs: seq<Subsection>)
    requires SectionOk(lex, s, x)
    ensures SubsFit(s, subs)
  {
    SubsectionsFit(lex, s, lex(s, x).next);
    SubsectionsFrom(lex, s, lex(s, x).next).value.0
  }

  /** The trailer dictionary of the section at `x` (the token after
      `trailer`). */
  function TrailerOf(lex: Lex, s: seq<byte>, x: nat): Option<Dict>
    requires SectionOk(lex, s, x)
  {
    var e := SubsectionsFrom(lex, s, lex(s, x).next).value.1;
    DictOf(lex, lex(s, lex(s, e).next).text)
  }

  /** The `/Prev` value of a trailer, when the trailer parses and has one. */
  function PrevOf(d: Option<Dict>): Option<seq<byte>>
  {
    if d.Some? && PrevKey in d.value then Some(d.value[PrevKey]) else None
  }

  /** One step of the first loop of `xrefRead` at the section `p`: a panic,
      also when there is no `xref` at `p` and the reader is sent to offset
      -1; None (Go's nil) when the section is not followed by `trailer`; and
      otherwise the number its trailer gives for `/Prev`, if it has one. */
  function NextOf(lex: Lex, s: seq<byte>, p: nat): (r: Res<Option<Option<nat>>>)
    ensures r.Ok? && r.value.Some? ==> SectionOk(lex, s, p)
    ensures lex(s, p).text != XrefKeyword ==> r == Panic
  {
    match XrefSkipOf(lex, s, p)
    case Panic => Panic
    case Ok(e) =>
      if e < 0 then Panic
      else if lex(s, e).text != TrailerKeyword then Ok(None)
      else
        var prev := PrevOf(TrailerOf(lex, s, p));
        if prev.None? then Ok(Some(None)) else Ok(Some(Some(NumOf(prev.value))))
  }

  /** The first loop of `xrefRead`: the offsets of the sections on the
      `/Prev` chain, newest first. None (Go's nil) when a section is not
      followed by `trailer`; a panic when the chain does not end within the
      1024 slots of `back`. `b` is the number of slots already used. */
  function ChainFrom(lex: Lex, s: seq<byte>, p: nat, b: nat): (r: Res<Option<seq<nat>>>)
    ensures r.Ok? && r.value.Some? ==>
              1 <= |r.value.value| <= MaxUpdates - b && r.value.value[0] == p && ChainOk(lex, s, r.value.value)
    decreases MaxUpdates - b
  {
    if b >= MaxUpdates then Panic
    else
      match NextOf(lex, s, p)
      case Panic => Panic
      case Ok(None) => Ok(None)
      case Ok(Some(None)) => Ok(Some([p]))
      case Ok(Some(Some(prev))) =>
        match ChainFrom(lex, s, prev, b + 1)
        case Panic => Panic
        case Ok(None) => Ok(None)
        case Ok(Some(rest)) => assert ([p] + rest)[1..] == rest; Ok(Some([p] + rest))
  }

  /** Every section of a chain is well formed. */
  predicate ChainOk(lex: Lex, s: seq<byte>, secs: seq<nat>)
  {
    secs == [] || (SectionOk(lex, s, secs[0]) && ChainOk(lex, s, secs[1..]))
  }

  // ---------------------------------------------------------------- replay

  /** One cross-reference entry: the object number it speaks for and its
      20 bytes (offset, generation, type byte `n` or `f` at index 17). */
  datatype XrefEntry = XrefEntry(num: nat, field: seq<byte>)

  /** The entries of one subsection, numbered consecutively from `first`. */
  function SubEntries(s: seq<byte>, sub: Subsection): (es: seq<XrefEntry>)
    requires sub.data + 20 * sub.count <= |s|
    ensures |es| == sub.count
    ensures forall i | 0 <= i < |es| :: es[i].num == sub.first + i && |es[i].field| == 20
  {
    seq(sub.count, i requires 0 <= i < sub.count =>
      XrefEntry(sub.first + i, s[sub.data + 20 * i..sub.data + 20 * i + 20]))
  }

  predicate SubsFit(s: seq<byte>, subs: seq<Subsection>)
  {
    forall i | 0 <= i < |subs| :: subs[i].data + 20 * subs[i].count <= |s|
  }

  /** The entries of a list of subsections, in order. */
  function SubsEntries(s: seq<byte>, subs: seq<Subsection>): seq<XrefEntry>
    requires SubsFit(s, subs)
  {
    if subs == [] then []
    else SubsEntries(s, subs[..|subs| - 1]) + SubEntries(s, subs[|subs| - 1])
  }

  /** The entries of the sections on a chain (given newest first), oldest
      section first: the order in which `xrefRead` replays them. */
  function ChainEntries(lex: Lex, s: seq<byte>, secs: seq<nat>): seq<XrefEntry>
    requires ChainOk(lex, s, secs)
  {
    if secs == [] then []
    else ChainEntries(lex, s, secs[1..]) + SubsEntries(s, SectionSubs(lex, s, secs[0]))
  }

  /** The effect of one entry: an in-use entry (`n` at byte 17) maps the
      object to the offset in its first ten bytes, any other entry removes
      the object. */
  function Apply(m: map<nat, nat>, e: XrefEntry): map<nat, nat>
    requires |e.field| == 20
  {
    if e.field[17] != InUse then m - {e.num} else m[e.num := NumOf(e.field[..10])]
  }

  predicate Fields(es: seq<XrefEntry>)
  {
    forall i | 0 <= i < |es| :: |es[i].field| == 20
  }

  /** The map after applying entries in order. */
  function ApplyAll(m: map<nat, nat>, es: seq<XrefEntry>): map<nat, nat>
    requires Fields(es)
  {
    if es == [] then m else Apply(ApplyAll(m, es[..|es| - 1]), es[|es| - 1])
  }

  lemma SubsEntriesFields(s: seq<byte>, subs: seq<Subsection>)
    requires SubsFit(s, subs)
    ensures Fields(SubsEntries(s, subs))
  {
    if subs != [] {
      SubsEntriesFields(s, subs[..|subs| - 1]);
    }
  }

  lemma ChainEntriesFields(lex: Lex, s: seq<byte>, secs: seq<nat>)
    requires ChainOk(lex, s, secs)
    ensures Fields(ChainEntries(lex, s, secs))
  {
    if secs != [] {
      ChainEntriesFields(lex, s, secs[1..]);
      SubsEntriesFields(s, SectionSubs(lex, s, secs[0]));
    }
  }

  /** What `xrefRead` returns: the replayed map of a well-formed chain. */
  function XrefOf(lex: Lex, s: seq<byte>, p: nat): Res<Option<map<nat, nat>>>
  {
    match ChainFrom(lex, s, p, 0)
    case Panic => Panic
    case Ok(None) => Ok(None)
    case Ok(Some(secs)) =>
      ChainEntriesFields(lex, s, secs);
      Ok(Some(ApplyAll(map[], ChainEntries(lex, s, secs))))
  }

  // ---------------------------------------------------------------- properties of the replay

  lemma FieldsAppend(a: seq<XrefEntry>, b: seq<XrefEntry>)
    requires Fields(a) && Fields(b)
    ensures Fields(a + b)
  {
    forall i | 0 <= i < |a + b|
      ensures |(a + b)[i].field| == 20
    {
      if i >= |a| {
        assert (a + b)[i] == b[i - |a|];
      }
    }
  }

  /** Replaying `a + b` is replaying `a`, then `b`. */
  lemma {:induction false} ApplyAllAppend(m: map<nat, nat>, a: seq<XrefEntry>, b: seq<XrefEntry>)
    requires Fields(a) && Fields(b)
    ensures Fields(a + b) && ApplyAll(m, a + b) == ApplyAll(ApplyAll(m, a), b)
    decreases |b|
  {
    FieldsAppend(a, b);
    if b == [] {
      assert a + b == a;
    } else {
      var init := b[..|b| - 1];
      ApplyAllAppend(m, a, init);
      assert (a + b)[..|a + b| - 1] == a + init;
      assert (a + b)[|a + b| - 1] == b[|b| - 1];
    }
  }

  /** An object no entry mentions keeps whatever the map had for it. */
  lemma {:induction false} ApplyAllUntouched(m: map<nat, nat>, es: seq<XrefEntry>, o: nat)
    requires Fields(es)
    requires forall i | 0 <= i < |es| :: es[i].num != o
    ensures o in ApplyAll(m, es) <==> o in m
    ensures o in m ==> ApplyAll(m, es)[o] == m[o]
  {
    if es != [] {
      ApplyAllUntouched(m, es[..|es| - 1], o);
    }
  }

  /** The last entry for an object decides it: the object is mapped exactly
      when that entry is in use, and then to that entry's offset. */
  lemma {:induction false} ApplyAllLastWins(m: map<nat, nat>, es: seq<XrefEntry>, i: nat)
    requires Fields(es) && i < |es|
    requires forall j | i < j < |es| :: es[j].num != es[i].num
    ensures es[i].num in ApplyAll(m, es) <==> es[i].field[17] == InUse
    ensures es[i].num in ApplyAll(m, es) ==> ApplyAll(m, es)[es[i].num] == NumOf(es[i].field[..10])
  {
    var init := es[..|es| - 1];
    if i == |es| - 1 {
    } else {
      ApplyAllLastWins(m, init, i);
    }
  }

  /** Starting from the empty map, an object that no entry of the chain
      mentions is not in the result. */
  lemma XrefOfUnmentioned(lex: Lex, s: seq<byte>, p: nat, secs: seq<nat>, o: nat)
    requires ChainFrom(lex, s, p, 0) == Ok(Some(secs))
    requires forall e | e in ChainEntries(lex, s, secs) :: e.num != o
    ensures XrefOf(lex, s, p).Ok? && XrefOf(lex, s, p).value.Some?
    ensures o !in XrefOf(lex, s, p).value.value
  {
    var es := ChainEntries(lex, s, secs);
    ChainEntriesFields(lex, s, secs);
    forall i | 0 <= i < |es| ensures es[i].num != o {
      assert es[i] in es;
    }
    ApplyAllUntouched(map[], es, o);
  }

  /** In the map `xrefRead` returns, the last entry of the chain (in replay
      order: oldest section first) that mentions an object decides it. */
  lemma XrefOfLastWins(lex: Lex, s: seq<byte>, p: nat, secs: seq<nat>, i: nat)
    requires ChainFrom(lex, s, p, 0) == Ok(Some(secs))
    requires i < |ChainEntries(lex, s, secs)|
    requires forall j | i < j < |ChainEntries(lex, s, secs)| ::
               ChainEntries(lex, s, secs)[j].num != ChainEntries(lex, s, secs)[i].num
    ensures XrefOf(lex, s, p).Ok? && XrefOf(lex, s, p).value.Some?
    ensures var e := ChainEntries(lex, s, secs)[i];
            var m := XrefOf(lex, s, p).value.value;
            |e.field| == 20 &&
            (e.num in m <==> e.field[17] == InUse) &&
            (e.num in m ==> m[e.num] == NumOf(e.field[..10]))
  {
    ChainEntriesFields(lex, s, secs);
    ApplyAllLastWins(map[], ChainEntries(lex, s, secs), i);
  }

  // ---------------------------------------------------------------- xrefRead

  /** The suffix of a well-formed chain is well formed. */
  lemma {:induction false} ChainOkFrom(lex: Lex, s: seq<byte>, secs: seq<nat>, k: nat)
    requires ChainOk(lex, s, secs) && k <= |secs|
    ensures ChainOk(lex, s, secs[k..])
    ensures k < |secs| ==> SectionOk(lex, s, secs[k])
  {
    if k > 0 {
      ChainOkFrom(lex, s, secs[1..], k - 1);
      assert secs[1..][k - 1..] == secs[k..];
    }
  }

  /** Two tokens read with `tupel`. */
  lemma TwoTokens(lex: Lex, s: seq<byte>, q: nat)
    ensures var t1 := lex(s, q);
            var t2 := lex(s, t1.next);
            var r := Tokens(lex, s, q, 2);
            r.0[0] == t1.text && r.0[1] == t2.text && r.1 == t2.next
  {
    var t1 := lex(s, q);
    assert Tokens(lex, s, q, 1) == ([] + [t1.text], t1.next);
  }

  /** Replaying entry `k` of a subsection, read from the slice `dat` of its
      entry bytes: the step the innermost loop of `xrefRead` takes. */
  lemma EntryStep(s: seq<byte>, sub: Subsection, dat: seq<byte>, r0: map<nat, nat>, k: nat)
    requires sub.data + 20 * sub.count <= |s| && k < sub.count
    requires dat == s[sub.data..sub.data + 20 * sub.count]
    ensures 20 * k + 20 <= |dat|
    ensures var es := SubEntries(s, sub);
            Fields(es[..k]) && Fields(es[..k + 1]) &&
            ApplyAll(r0, es[..k + 1]) ==
              if dat[20 * k + 17] != InUse then ApplyAll(r0, es[..k]) - {sub.first + k}
              else ApplyAll(r0, es[..k])[sub.first + k := NumOf(dat[20 * k..20 * k + 10])]
  {
    var es := SubEntries(s, sub);
    var f := es[k].field;
    assert f == s[sub.data + 20 * k..sub.data + 20 * k + 20];
    forall j | 0 <= j < 20 ensures f[j] == dat[20 * k + j] {
      assert f[j] == s[sub.data + 20 * k + j];
    }
    assert f[..10] == dat[20 * k..20 * k + 10];
    assert es[..k + 1][..k] == es[..k];
    assert es[..k + 1][k] == es[k];
  }

  /** The entries of one subsection: the innermost loop of `xrefRead`, over
      the `count * 20` bytes taken with `f.Slice`. */
  method ReplaySubsection(s: seq<byte>, sub: Subsection, r0: map<nat, nat>) returns (r: map<nat, nat>)
    requires sub.data + 20 * sub.count <= |s|
    ensures r == ApplyAll(r0, SubEntries(s, sub))
  {
    var dat := s[sub.data..sub.data + 20 * sub.count];
    ghost var es := SubEntries(s, sub);
    ghost var k := 0;
    var o := sub.first;
    r := r0;
    var i := 0;
    while i < |dat|
      invariant i == 20 * k && k <= sub.count
      invariant o == sub.first + k
      invariant r == ApplyAll(r0, es[..k])
    {
      EntryStep(s, sub, dat, r0, k);
      if dat[i + 17] != InUse {
        r := r - {o};
      } else {
        var v := Num(dat[i..i + 10]);
        r := r[o := v];
      }
      o := o + 1;
      i := i + 20;
      k := k + 1;
    }
    assert es[..k] == es;
  }

  /** One step of the middle loop of `xrefRead`: at the start of a section's
      remaining subsections, the first token is `trailer` exactly when none
      remain, and otherwise the two tokens are the next header. */
  lemma SubsectionStep(lex: Lex, s: seq<byte>, q: nat, rest: seq<Subsection>, e: nat,
                        m: seq<seq<byte>>, q1: nat, next: int)
    requires SubsectionsFrom(lex, s, q) == Ok((rest, e)) && lex(s, e).text == TrailerKeyword
    requires (m, q1) == Tokens(lex, s, q, 2)
    requires next == SkipLE(s, q1) + NumOf(m[1]) * 20
    ensures |m| == 2 && (m[0] == TrailerKeyword <==> rest == [])
    ensures rest != [] ==>
              rest[0] == Subsection(NumOf(m[0]), NumOf(m[1]), SkipLE(s, q1)) &&
              SkipLE(s, q1) + 20 * NumOf(m[1]) <= |s| && q < next &&
              SubsectionsFrom(lex, s, next) == Ok((rest[1..], e))
  {
    TwoTokens(lex, s, q);
    var t1 := lex(s, q);
    if !IsDigit(t1.text[0]) {
      assert lex(s, lex(s, q).start) == t1;
    } else {
      var t2 := lex(s, t1.next);
      var data := SkipLE(s, t2.next);
      assert m[1] == t2.text && data == SkipLE(s, q1);
      assert NumOf(m[1]) == NumOf(t2.text);
      var r := SubsectionsFrom(lex, s, next).value;
      var sub := Subsection(NumOf(t1.text), NumOf(t2.text), data);
      assert rest == [sub] + r.0 && e == r.1;
      assert rest[1..] == r.0;
    }
  }

  /** Moving one subsection from the remaining ones to the replayed ones. */
  lemma ReplayStep(s: seq<byte>, r0: map<nat, nat>, done: seq<Subsection>, rest: seq<Subsection>,
                   all: seq<Subsection>)
    requires all == done + rest && rest != []
    requires SubsFit(s, done) && rest[0].data + 20 * rest[0].count <= |s|
    ensures all == (done + [rest[0]]) + rest[1..]
    ensures SubsFit(s, done + [rest[0]]) && Fields(SubsEntries(s, done + [rest[0]]))
    ensures Fields(SubsEntries(s, done))
    ensures ApplyAll(r0, SubsEntries(s, done + [rest[0]])) ==
            ApplyAll(ApplyAll(r0, SubsEntries(s, done)), SubEntries(s, rest[0]))
  {
    var next := done + [rest[0]];
    assert next[..|done|] == done;
    SubsEntriesFields(s, done);
    ApplyAllAppend(r0, SubsEntries(s, done), SubEntries(s, rest[0]));
    SubsEntriesFields(s, next);
  }

  /** The loop body of the middle loop of `xrefRead`: reads a header with
      `tupel` and steps past it; None at the `trailer` token. */
  method NextSubsection(lex: Lex, s: seq<byte>, q: nat, ghost rest: seq<Subsection>, ghost e: nat)
    returns (sub: Option<Subsection>, q': nat)
    requires SubsectionsFrom(lex, s, q) == Ok((rest, e)) && lex(s, e).text == TrailerKeyword
    ensures sub.None? <==> rest == []
    ensures sub.Some? ==>
              rest[0] == sub.value && sub.value.data + 20 * sub.value.count <= |s| &&
              SubsectionsFrom(lex, s, q') == Ok((rest[1..], e)) && q < q'
  {
    var m, q1 := Tupel(lex, s, q, 2);
    if m[0] == TrailerKeyword {
      SubsectionStep(lex, s, q, rest, e, m, q1, SkipLE(s, q1) + NumOf(m[1]) * 20);
      return None, q;
    }
    var q2 := SkipLE(s, q1);
    var o := Num(m[0]);
    var n := Num(m[1]);
    sub := Some(Subsection(o, n, q2));
    q' := q2 + n * 20;
    SubsectionStep(lex, s, q, rest, e, m, q1, q');
  }

  /** The subsections of one section, read header by header with `tupel`
      until the `trailer` token: the middle loop of `xrefRead`. */
  method ReplaySection(lex: Lex, s: seq<byte>, x: nat, r0: map<nat, nat>) returns (r: map<nat, nat>)
    requires SectionOk(lex, s, x)
    ensures Fields(SubsEntries(s, SectionSubs(lex, s, x)))
    ensures r == ApplyAll(r0, SubsEntries(s, SectionSubs(lex, s, x)))
  {
    var t := lex(s, x);
    var q := t.next;
    r := r0;
    ghost var all := SectionSubs(lex, s, x);
    ghost var e := SubsectionsFrom(lex, s, q).value.1;
    ghost var done: seq<Subsection> := [];
    ghost var rest := all;
    SubsEntriesFields(s, all);
    while true
      invariant SubsectionsFrom(lex, s, q) == Ok((rest, e)) && lex(s, e).text == TrailerKeyword
      invariant all == done + rest
      invariant SubsFit(s, done) && Fields(SubsEntries(s, done))
      invariant r == ApplyAll(r0, SubsEntries(s, done))
      decreases |s| - q
    {
      var sub, q' := NextSubsection(lex, s, q, rest, e);
      if sub.None? {
        break;
      }
      ReplayStep(s, r0, done, rest, all);
      r := ReplaySubsection(s, sub.value, r);
      done := done + [sub.value];
      rest := rest[1..];
      q := q';
    }
    assert done == all;
  }

  function JoinChain(pre: seq<nat>, r: Res<Option<seq<nat>>>): Res<Option<seq<nat>>>
  {
    match r
    case Panic => Panic
    case Ok(None) => Ok(None)
    case Ok(Some(rest)) => Ok(Some(pre + rest))
  }

  lemma JoinChainStep(pre: seq<nat>, p: nat, r: Res<Option<seq<nat>>>)
    ensures JoinChain(pre, JoinChain([p], r)) == JoinChain(pre + [p], r)
  {
    if r.Ok? && r.value.Some? {
      assert pre + ([p] + r.value.value) == (pre + [p]) + r.value.value;
    }
  }

  /** One step of the first loop of `xrefRead`: what the chain from `p0`
      is once the section at `p`, reached after the sections `pre`, has
      been followed. */
  lemma ChainStep(lex: Lex, s: seq<byte>, p0: nat, pre: seq<nat>, p: nat, b: nat)
    requires b < MaxUpdates && ChainFrom(lex, s, p0, 0) == JoinChain(pre, ChainFrom(lex, s, p, b))
    ensures match NextOf(lex, s, p)
            case Panic => ChainFrom(lex, s, p0, 0) == Panic
            case Ok(None) => ChainFrom(lex, s, p0, 0) == Ok(None)
            case Ok(Some(None)) => ChainFrom(lex, s, p0, 0) == Ok(Some(pre + [p]))
            case Ok(Some(Some(next))) =>
              ChainFrom(lex, s, p0, 0) == JoinChain(pre + [p], ChainFrom(lex, s, next, b + 1))
  {
    match NextOf(lex, s, p)
    case Panic =>
    case Ok(None) =>
    case Ok(Some(None)) =>
    case Ok(Some(Some(next))) =>
      var r := ChainFrom(lex, s, next, b + 1);
      assert ChainFrom(lex, s, p, b) == JoinChain([p], r);
      JoinChainStep(pre, p, r);
  }

  /** The loop body of the first loop of `xrefRead`: skips the section at
      `p`, checks for `trailer` and looks up `/Prev` in the trailer. */
  method FollowSection(lex: Lex, s: seq<byte>, p: nat) returns (r: Res<Option<Option<nat>>>)
    ensures r == NextOf(lex, s, p)
  {
    var e := XrefSkip(lex, s, p);
    if e.Panic? {
      return Panic;
    }
    if e.value < 0 {
      return Panic;
    }
    var t := lex(s, e.value);
    if t.text != TrailerKeyword {
      return Ok(None);
    }
    var d := Dictionary(lex, lex(s, t.next).text);
    assert d == TrailerOf(lex, s, p);
    if d.Some? && PrevKey in d.value {
      var next := Num(d.value[PrevKey]);
      return Ok(Some(Some(next)));
    }
    return Ok(Some(None));
  }

  /** The second loop of `xrefRead`: replays the collected sections
      `back[..b]` from the oldest (the last one collected) to the newest. */
  method ReplayChain(lex: Lex, s: seq<byte>, back: array<nat>, b: nat) returns (m: map<nat, nat>)
    requires b <= back.Length && ChainOk(lex, s, back[..b])
    ensures Fields(ChainEntries(lex, s, back[..b]))
    ensures m == ApplyAll(map[], ChainEntries(lex, s, back[..b]))
  {
    ghost var secs := back[..b];
    ChainOkFrom(lex, s, secs, b);
    assert secs[b..] == [];
    m := map[];
    var k := b;
    while k > 0
      invariant k <= b
      invariant ChainOk(lex, s, secs[k..]) && Fields(ChainEntries(lex, s, secs[k..]))
      invariant m == ApplyAll(map[], ChainEntries(lex, s, secs[k..]))
    {
      k := k - 1;
      ChainOkFrom(lex, s, secs, k);
      assert secs[k..][1..] == secs[k + 1..];
      m := ReplaySection(lex, s, back[k], m);
      ApplyAllAppend(map[], ChainEntries(lex, s, secs[k + 1..]), SubsEntries(s, SectionSubs(lex, s, secs[k])));
    }
    assert secs[0..] == secs;
  }

  /** The first loop of `xrefRead`: collects the offsets of the sections
      on the `/Prev` chain from `p0` into `back`, newest first, and gives
      how many there are. */
  method CollectChain(lex: Lex, s: seq<byte>, p0: nat, back: array<nat>) returns (r: Res<Option<nat>>)
    requires back.Length == MaxUpdates
    modifies back
    ensures match r
            case Panic => ChainFrom(lex, s, p0, 0) == Panic
            case Ok(None) => ChainFrom(lex, s, p0, 0) == Ok(None)
            case Ok(Some(b)) => b <= back.Length && ChainFrom(lex, s, p0, 0) == Ok(Some(back[..b]))
  {
    var b := 0;
    var p := p0;
    var ok := true;
    ghost var chain := ChainFrom(lex, s, p0, 0);
    ghost var got: seq<nat> := [];
    assert JoinChain(got, chain) == chain by {
      if chain.Ok? && chain.value.Some? {
        assert got + chain.value.value == chain.value.value;
      }
    }
    while ok
      invariant b <= MaxUpdates && got == back[..b]
      invariant ok ==> chain == JoinChain(got, ChainFrom(lex, s, p, b))
      invariant !ok ==> chain == Ok(Some(got))
      decreases MaxUpdates - b
    {
      if b >= MaxUpdates {
        return Panic;
      }
      var step := FollowSection(lex, s, p);
      ChainStep(lex, s, p0, got, p, b);
      back[b] := p;
      b := b + 1;
      got := got + [p];
      assert got == back[..b];
      match step
      case Panic => return Panic;
      case Ok(None) => return Ok(None);
      case Ok(Some(None)) => ok := false;
      case Ok(Some(Some(next))) => p := next;
    }
    r := Ok(Some(b));
  }

  /** `xrefRead`: collects the section offsets of the `/Prev` chain in
      `back`, then replays the sections from the oldest to the newest. */
  method XrefRead(lex: Lex, s: seq<byte>, p0: nat) returns (r: Res<Option<map<nat, nat>>>)
    ensures r == XrefOf(lex, s, p0)
  {
    var back := new nat[MaxUpdates];
    var c := CollectChain(lex, s, p0, back);
    match c
    case Panic => return Panic;
    case Ok(None) => return Ok(None);
    case Ok(Some(b)) =>
      var m := ReplayChain(lex, s, back, b);
      r := Ok(Some(m));
  }
}
