/** The object layer of pdfread.go stated as functions of the loaded
    document: `object` (an indirect object's first value), the reference
    chain `resolve` follows (section 7.3.10 of ISO 32000-1), and the
    accessors built on it. The caches of the reader do not appear here; the
    reader class proves that its cached answers are these functions' values. */
module PdfObjects {
  import opened Bytes
  import opened Lexer
  import opened PdfSyntax

  /** What `Load` leaves behind: the tokenizer, the file bytes, the merged
      cross-reference map (object number to offset) and the newest trailer. */
  datatype Doc = Doc(lex: Lex, src: seq<byte>, xref: map<nat, nat>, trailer: Dict)

  // ---------------------------------------------------------------- object

  /** `object`: the value after the `o g obj` header at the offset the
      cross-reference map gives for `o`, and the offset right after it;
      (-1, empty) when `o` has no entry or the header names another object. */
  function ObjectAt(doc: Doc, o: nat): (r: (int, seq<byte>))
    ensures o !in doc.xref ==> r == (-1, [])
    ensures r.1 in Slices(doc.src)
    ensures r.1 != [] ==> o in doc.xref && |r.1| <= r.0 <= |doc.src| && r.1 == doc.src[r.0 - |r.1|..r.0]
  {
    EmptyIn(doc.src);
    if o !in doc.xref then (-1, [])
    else
      var h := Tokens(doc.lex, doc.src, doc.xref[o], 3);
      if NumOf(h.0[0]) != o then (-1, [])
      else
        var t := RefToken(doc.lex, doc.src, h.1);
        if t.text == [] then (t.next as int, t.text)
        else SliceIn(doc.src, t.start, t.next); (t.next as int, t.text)
  }

  // ---------------------------------------------------------------- resolve

  /** The form the inner `resolve` follows: at least five bytes, a leading
      digit and a trailing `R`. */
  predicate IsRef(s: seq<byte>)
  {
    |s| >= 5 && IsDigit(s[0]) && s[|s| - 1] == 'R' as byte
  }

  /** The test applied to an object's value before following it (no length
      check); it is only applied to non-empty values. */
  predicate LooksRef(t: seq<byte>)
    requires t != []
  {
    IsDigit(t[0]) && t[|t| - 1] == 'R' as byte
  }

  lemma CardStep(k: set<nat>, d: set<nat>, o: nat)
    requires o in k && o !in d
    ensures |k - (d + {o})| < |k - d|
  {
    assert k - d == (k - (d + {o})) + {o};
  }

  /** The inner `resolve` without caches: follows references whose object
      value again looks like a reference, stopping with (-1, empty) when an
      object number in `done` comes round again. A missing object panics
      (its empty value is indexed). */
  function ResolveFrom(doc: Doc, s: seq<byte>, done: set<nat>): Res<(int, seq<byte>)>
    decreases |doc.xref.Keys - done|
  {
    if !IsRef(s) then Ok((-1, s))
    else
      var o := NumOf(s);
      if o in done then Ok((-1, []))
      else
        var (n, t) := ObjectAt(doc, o);
        if t == [] then Panic
        else if LooksRef(t) then
          CardStep(doc.xref.Keys, done, o);
          ResolveFrom(doc, t, done + {o})
        else Ok((n, t))
  }

  /** `resolve`: a value shorter than five bytes or not ending in `R` comes
      back unchanged with offset -1; anything else goes to the inner
      resolver with nothing visited. */
  function ResolveOf(doc: Doc, s: seq<byte>): Res<(int, seq<byte>)>
  {
    if |s| < 5 || s[|s| - 1] != 'R' as byte then Ok((-1, s)) else ResolveFrom(doc, s, {})
  }

  /** The reference an object value leads on to, if `resolve` follows it. */
  function Next(doc: Doc, s: seq<byte>): Option<seq<byte>>
  {
    if !IsRef(s) then None
    else
      var t := ObjectAt(doc, NumOf(s)).1;
      if t != [] && LooksRef(t) then Some(t) else None
  }

  /** The references the inner `resolve` caches when it resolves `s` with
      the object numbers `done` visited, all found in `keys`: `s` itself
      and, unless `s` was already cached (in `known`), every reference it
      leads on to, up to an object number visited again. */
  ghost predicate ChainCached(doc: Doc, keys: set<seq<byte>>, known: set<seq<byte>>, s: seq<byte>, done: set<nat>)
    decreases |doc.xref.Keys - done|
  {
    IsRef(s) && NumOf(s) !in done ==>
      s in keys &&
      (s !in known && Next(doc, s).Some? ==>
         NumOf(s) in doc.xref.Keys &&
         (CardStep(doc.xref.Keys, done, NumOf(s));
          ChainCached(doc, keys, known, Next(doc, s).value, done + {NumOf(s)})))
  }

  /** Adding cache entries keeps a chain cached. */
  lemma {:induction false} ChainCachedGrows(doc: Doc, k1: set<seq<byte>>, k2: set<seq<byte>>, known: set<seq<byte>>,
                                            s: seq<byte>, done: set<nat>)
    requires ChainCached(doc, k1, known, s, done) && k1 <= k2
    ensures ChainCached(doc, k2, known, s, done)
    decreases |doc.xref.Keys - done|
  {
    if IsRef(s) && NumOf(s) !in done && s !in known && Next(doc, s).Some? {
      CardStep(doc.xref.Keys, done, NumOf(s));
      ChainCachedGrows(doc, k1, k2, known, Next(doc, s).value, done + {NumOf(s)});
    }
  }

  /** Each string of `w` leads on to the next one. */
  ghost predicate Linked(doc: Doc, w: seq<seq<byte>>)
  {
    forall i | 0 <= i < |w| - 1 :: Next(doc, w[i]) == Some(w[i + 1])
  }

  /** The object numbers of the references in `w`. */
  function Nums(w: seq<seq<byte>>): set<nat>
  {
    set i | 0 <= i < |w| :: NumOf(w[i])
  }

  lemma NumsSnoc(w: seq<seq<byte>>, s: seq<byte>)
    ensures Nums(w + [s]) == Nums(w) + {NumOf(s)}
  {
    assert forall i | 0 <= i < |w| :: (w + [s])[i] == w[i];
    assert (w + [s])[|w|] == s;
  }

  /** A chain that comes back to an object number already visited, or one
      in `v`, ends in (-1, empty). */
  lemma {:induction false} CycleEmpty(doc: Doc, w: seq<seq<byte>>, v: set<nat>)
    requires |w| >= 1 && Linked(doc, w) && IsRef(w[|w| - 1])
    requires NumOf(w[|w| - 1]) in v + Nums(w[..|w| - 1])
    ensures ResolveFrom(doc, w[0], v) == Ok((-1, []))
    decreases |w|
  {
    var o := NumOf(w[0]);
    if |w| > 1 {
      assert Next(doc, w[0]) == Some(w[1]);
    }
    if o !in v {
      if |w| == 1 {
        assert false;
      }
      assert Next(doc, w[0]) == Some(w[1]);
      var w' := w[1..];
      var last := w[|w| - 1];
      assert NumOf(last) in v + {o} + Nums(w'[..|w'| - 1]) by {
        if NumOf(last) !in v {
          var i :| 0 <= i < |w| - 1 && NumOf(w[..|w| - 1][i]) == NumOf(last);
          if i > 0 {
            assert w'[..|w'| - 1][i - 1] == w[i];
          }
        }
      }
      assert Linked(doc, w') by {
        forall i | 0 <= i < |w'| - 1 ensures Next(doc, w'[i]) == Some(w'[i + 1]) {
          assert w'[i] == w[i + 1] && w'[i + 1] == w[i + 2];
        }
      }
      CycleEmpty(doc, w', v + {o});
    }
  }

  /** Two references with the same object number lead on alike. */
  lemma NextSameNum(doc: Doc, a: seq<byte>, b: seq<byte>)
    requires IsRef(a) && IsRef(b) && NumOf(a) == NumOf(b)
    ensures Next(doc, a) == Next(doc, b)
  {
  }

  /** The visited set of one `resolve` call does not change what a reference
      on the chain resolves to: with the object numbers of the chain that
      led to `s` visited, or any part of them, the answer is the same. This
      is what lets the caches store, for every reference of a chain, the
      answer the chain produced. */
  lemma {:induction false} VisitedIrrelevant(doc: Doc, path: seq<seq<byte>>, s: seq<byte>, v: set<nat>)
    requires Linked(doc, path + [s])
    requires v <= Nums(path)
    ensures ResolveFrom(doc, s, Nums(path)) == ResolveFrom(doc, s, v)
    decreases |doc.xref.Keys - v|
  {
    if IsRef(s) {
      var o := NumOf(s);
      var all := path + [s];
      if o in Nums(path) {
        if o !in v {
          var j :| 0 <= j < |path| && NumOf(path[j]) == o;
          assert all[j] == path[j];
          assert Next(doc, path[j]) == Some(all[j + 1]);
          var w := [s] + all[j + 1..];
          assert w[|w| - 1] == s && w[..|w| - 1][0] == s;
          assert Linked(doc, w) by {
            forall i | 0 <= i < |w| - 1 ensures Next(doc, w[i]) == Some(w[i + 1]) {
              if i == 0 {
                NextSameNum(doc, s, path[j]);
              } else {
                assert w[i] == all[j + i] && w[i + 1] == all[j + i + 1];
              }
            }
          }
          CycleEmpty(doc, w, v);
        }
      } else {
        var t := ObjectAt(doc, o).1;
        if t != [] && LooksRef(t) {
          CardStep(doc.xref.Keys, v, o);
          NumsSnoc(path, s);
          assert Linked(doc, all + [t]) by {
            forall i | 0 <= i < |all + [t]| - 1 ensures Next(doc, (all + [t])[i]) == Some((all + [t])[i + 1]) {
              if i < |all| - 1 {
                assert (all + [t])[i] == all[i] && (all + [t])[i + 1] == all[i + 1];
              }
            }
          }
          VisitedIrrelevant(doc, all, t, v + {o});
        }
      }
    }
  }

  /** The case the reader's caches need: the answer reached part-way along a
      chain is the answer a fresh call gives. */
  lemma ResolveFresh(doc: Doc, path: seq<seq<byte>>, s: seq<byte>)
    requires Linked(doc, path + [s])
    ensures ResolveFrom(doc, s, Nums(path)) == ResolveFrom(doc, s, {})
  {
    VisitedIrrelevant(doc, path, s, {});
  }

  /** A chained reference collapses: a reference whose object is again a
      reference resolves to what that reference resolves to. */
  lemma ResolveChain(doc: Doc, s: seq<byte>, t: seq<byte>)
    requires Next(doc, s) == Some(t)
    ensures ResolveFrom(doc, s, {}) == ResolveFrom(doc, t, {})
  {
    var o := NumOf(s);
    assert Nums([s]) == {o} by {
      assert [s][0] == s;
    }
    assert [s] + [t] == [s, t];
    ResolveFresh(doc, [s], t);
    var ot := ObjectAt(doc, o);
    assert ot.1 == t && t != [] && LooksRef(t);
    assert {} + {o} == {o};
    assert ResolveFrom(doc, s, {}) == ResolveFrom(doc, t, {o});
  }

  /** What a resolution can end in: offset -1 with empty bytes (a cycle) or
      with a value the inner resolver does not follow, or a non-negative
      offset just past an object value that does not look like a reference
      and is taken from the file. */
  lemma {:induction false} ResolveEnds(doc: Doc, s: seq<byte>, done: set<nat>)
    ensures match ResolveFrom(doc, s, done)
            case Panic => true
            case Ok((n, t)) =>
              (n == -1 && (t == [] || !IsRef(t)) && (t == [] || t == s || t in Slices(doc.src))) ||
              (t != [] && !LooksRef(t) && |t| <= n <= |doc.src| && t == doc.src[n - |t|..n])
    decreases |doc.xref.Keys - done|
  {
    if IsRef(s) && NumOf(s) !in done {
      var o := NumOf(s);
      var t := ObjectAt(doc, o).1;
      if t != [] && LooksRef(t) {
        CardStep(doc.xref.Keys, done, o);
        ResolveEnds(doc, t, done + {o});
      }
    }
  }

  /** `obj` of a resolved value gives the value back: resolving is idempotent. */
  lemma ResolveIdempotent(doc: Doc, s: seq<byte>)
    requires ResolveOf(doc, s).Ok?
    ensures ResolveOf(doc, ResolveOf(doc, s).value.1) == Ok((-1, ResolveOf(doc, s).value.1))
  {
    if |s| >= 5 && s[|s| - 1] == 'R' as byte {
      ResolveEnds(doc, s, {});
    }
  }

  // ---------------------------------------------------------------- accessors

  /** `obj`: the bytes `resolve` ends in. */
  function ObjOf(doc: Doc, s: seq<byte>): Res<seq<byte>>
  {
    match ResolveOf(doc, s)
    case Panic => Panic
    case Ok((_, t)) => Ok(t)
  }

  /** The `num` method: `num` of the resolved bytes. */
  function NumRefOf(doc: Doc, s: seq<byte>): Res<nat>
  {
    match ObjOf(doc, s)
    case Panic => Panic
    case Ok(t) => Ok(NumOf(t))
  }

  /** `Dic` without its cache: `dictionary` of the resolved bytes. */
  function DicOf(doc: Doc, s: seq<byte>): Res<Option<Dict>>
  {
    match ObjOf(doc, s)
    case Panic => Panic
    case Ok(t) => Ok(DictOf(doc.lex, t))
  }

  /** `Arr`: `array` of the resolved bytes. */
  function ArrOf(doc: Doc, s: seq<byte>): Res<Option<seq<seq<byte>>>>
  {
    match ObjOf(doc, s)
    case Panic => Panic
    case Ok(t) => ArrayOf(doc.lex, t)
  }

  /** `ForcedArray`: the array the value resolves to, or the value itself as
      the only element when it does not resolve to something starting with
      `[`; empty resolved bytes panic (their first byte is read). */
  function ForcedArrayOf(doc: Doc, s: seq<byte>): Res<Option<seq<seq<byte>>>>
  {
    match ObjOf(doc, s)
    case Panic => Panic
    case Ok(t) =>
      if t == [] then Panic
      else if t[0] != '[' as byte then Ok(Some([s]))
      else ArrayOf(doc.lex, t)
  }

  /** A Go map lookup on a possibly nil dictionary: a missing key or a nil
      map gives the empty (nil) byte slice. */
  function Get(d: Option<Dict>, k: seq<byte>): seq<byte>
  {
    if d.Some? && k in d.value then d.value[k] else []
  }

  predicate Has(d: Option<Dict>, k: seq<byte>)
  {
    d.Some? && k in d.value
  }

  // ---------------------------------------------------------------- names

  const RootKey: seq<byte> := Str("/Root")
  const PagesKey: seq<byte> := Str("/Pages")
  const CountKey: seq<byte> := Str("/Count")
  const KidsKey: seq<byte> := Str("/Kids")
  const ParentKey: seq<byte> := Str("/Parent")
  const LengthKey: seq<byte> := Str("/Length")
  const FilterKey: seq<byte> := Str("/Filter")
  /** The key the filter dispatch reads its parameters from, as spelled in
      pdfread.go (section 7.3.8.2 of ISO 32000-1 spells it `/DecodeParms`). */
  const DecodeParamsKey: seq<byte> := Str("/DecodeParams")
  const EarlyChangeKey: seq<byte> := Str("/EarlyChange")
  const StreamKeyword: seq<byte> := Str("stream")

  // ---------------------------------------------------------------- where strings come from

  /** The strings a walk that starts from `a` can meet: slices of the file
      and slices of `a` itself. It is finite, which bounds the walks. */
  function Universe(doc: Doc, a: seq<byte>): set<seq<byte>>
  {
    Slices(doc.src) + Slices(a)
  }

  lemma InUniverse(doc: Doc, a: seq<byte>, y: seq<byte>, z: seq<byte>)
    requires z in Universe(doc, a) && y in Slices(z)
    ensures y in Universe(doc, a)
  {
    if z in Slices(doc.src) {
      SlicesTrans(y, z, doc.src);
    } else {
      SlicesTrans(y, z, a);
    }
  }

  /** Resolving stays within the universe. */
  lemma ObjInUniverse(doc: Doc, a: seq<byte>, x: seq<byte>)
    requires x in Universe(doc, a) && ObjOf(doc, x).Ok?
    ensures ObjOf(doc, x).value in Universe(doc, a)
  {
    EmptyIn(doc.src);
    if |x| >= 5 && x[|x| - 1] == 'R' as byte {
      ResolveEnds(doc, x, {});
      var r := ResolveFrom(doc, x, {}).value;
      if r.0 >= 0 && r.1 != [] {
        SliceIn(doc.src, r.0 - |r.1|, r.0);
      }
    }
  }

  /** The values of a dictionary reached from the universe are in it. */
  lemma DicInUniverse(doc: Doc, a: seq<byte>, x: seq<byte>)
    requires x in Universe(doc, a)
    ensures DicOf(doc, x).Ok? && DicOf(doc, x).value.Some? ==>
              forall k | k in DicOf(doc, x).value.value :: DicOf(doc, x).value.value[k] in Universe(doc, a)
  {
    if DicOf(doc, x).Ok? && DicOf(doc, x).value.Some? {
      var o := ObjOf(doc, x).value;
      ObjInUniverse(doc, a, x);
      DictOfFacts(doc.lex, o);
      forall k | k in DicOf(doc, x).value.value
        ensures DicOf(doc, x).value.value[k] in Universe(doc, a)
      {
        InUniverse(doc, a, DicOf(doc, x).value.value[k], o);
      }
    }
  }

  /** The elements of an array reached from the universe are in it. */
  lemma ArrInUniverse(doc: Doc, a: seq<byte>, x: seq<byte>)
    requires x in Universe(doc, a)
    ensures ArrOf(doc, x).Ok? && ArrOf(doc, x).value.Some? ==>
              forall i | 0 <= i < |ArrOf(doc, x).value.value| :: ArrOf(doc, x).value.value[i] in Universe(doc, a)
  {
    if ArrOf(doc, x).Ok? && ArrOf(doc, x).value.Some? {
      var o := ObjOf(doc, x).value;
      ObjInUniverse(doc, a, x);
      ArrayOfFacts(doc.lex, o);
      forall i | 0 <= i < |ArrOf(doc, x).value.value|
        ensures ArrOf(doc, x).value.value[i] in Universe(doc, a)
      {
        InUniverse(doc, a, ArrOf(doc, x).value.value[i], o);
      }
    }
  }

  lemma SubsetCard<T>(a: set<T>, b: set<T>)
    requires a <= b
    ensures |a| <= |b|
  {
    if a != {} {
      var x :| x in a;
      SubsetCard(a - {x}, b - {x});
    }
  }

  lemma VisitCard(u: set<seq<byte>>, done: set<seq<byte>>, more: set<seq<byte>>, x: seq<byte>)
    requires x in u && x !in done && done + {x} <= more
    ensures |u - more| < |u - done|
  {
    SubsetCard(u - more, u - (done + {x}));
    assert u - done == (u - (done + {x})) + {x};
  }

  // ---------------------------------------------------------------- Pages

  /** One step of the depth-first walk of `Pages`: a reference met a second
      time panics; one whose dictionary has `/Kids` is walked into, any
      other one is a leaf. Gives the leaves found and the references visited. */
  function Visit(doc: Doc, a: seq<byte>, x: seq<byte>, done: set<seq<byte>>)
    : (r: Res<(seq<seq<byte>>, set<seq<byte>>)>)
    requires x in Universe(doc, a) && done <= Universe(doc, a)
    ensures r.Ok? ==> x !in done && done + {x} <= r.value.1 <= Universe(doc, a)
    decreases |Universe(doc, a) - done|, 0, 0
  {
    if x in done then Panic
    else
      match DicOf(doc, x)
      case Panic => Panic
      case Ok(d) =>
        if Has(d, KidsKey) then
          DicInUniverse(doc, a, x);
          ArrInUniverse(doc, a, d.value[KidsKey]);
          match ArrOf(doc, d.value[KidsKey])
          case Panic => Panic
          case Ok(kids) =>
            VisitCard(Universe(doc, a), done, done + {x}, x);
            WalkFrom(doc, a, if kids.Some? then kids.value else [], 0, done + {x})
        else Ok(([x], done + {x}))
  }

  /** The walk over the references `p[k..]` of one `/Kids` list, in order. */
  function WalkFrom(doc: Doc, a: seq<byte>, p: seq<seq<byte>>, k: nat, done: set<seq<byte>>)
    : (r: Res<(seq<seq<byte>>, set<seq<byte>>)>)
    requires k <= |p|
    requires forall i | 0 <= i < |p| :: p[i] in Universe(doc, a)
    requires done <= Universe(doc, a)
    ensures r.Ok? ==> done <= r.value.1 <= Universe(doc, a)
    decreases |Universe(doc, a) - done|, 1, |p| - k
  {
    if k == |p| then Ok(([], done))
    else
      match Visit(doc, a, p[k], done)
      case Panic => Panic
      case Ok((l1, d1)) =>
        VisitCard(Universe(doc, a), done, d1, p[k]);
        match WalkFrom(doc, a, p, k + 1, d1)
        case Panic => Panic
        case Ok((l2, d2)) => Ok((l1 + l2, d2))
  }

  /** `n` nil entries: the slots of the page slice no leaf was written to. */
  function Nils(n: nat): (r: seq<seq<byte>>)
    ensures |r| == n && forall i | 0 <= i < n :: r[i] == []
  {
    if n == 0 then [] else Nils(n - 1) + [[]]
  }

  /** The `/Pages` dictionary of the trailer's `/Root`. */
  function PagesDicOf(doc: Doc): (r: Res<Option<Dict>>)
    ensures r.Ok? && r.value.Some? ==>
              forall k | k in r.value.value :: r.value.value[k] in Universe(doc, Get(Some(doc.trailer), RootKey))
  {
    var root := Get(Some(doc.trailer), RootKey);
    WholeIn(root);
    match DicOf(doc, root)
    case Panic => Panic
    case Ok(rd) =>
      DicInUniverse(doc, root, root);
      EmptyIn(root);
      DicInUniverse(doc, root, Get(rd, PagesKey));
      DicOf(doc, Get(rd, PagesKey))
  }

  /** The root of the page tree: the `/Count` of the trailer's `/Root`
      `/Pages` dictionary and the references of its `/Kids` (none when the
      array is nil). */
  function PageTreeOf(doc: Doc): (r: Res<(nat, seq<seq<byte>>)>)
    ensures r.Ok? ==> forall i | 0 <= i < |r.value.1| ::
                        r.value.1[i] in Universe(doc, Get(Some(doc.trailer), RootKey)) && r.value.1[i] != []
  {
    var root := Get(Some(doc.trailer), RootKey);
    match PagesDicOf(doc)
    case Panic => Panic
    case Ok(pd) =>
      match NumRefOf(doc, Get(pd, CountKey))
      case Panic => Panic
      case Ok(count) =>
        EmptyIn(root);
        ArrInUniverse(doc, root, Get(pd, KidsKey));
        ArrNonEmpty(doc, Get(pd, KidsKey));
        match ArrOf(doc, Get(pd, KidsKey))
        case Panic => Panic
        case Ok(kids) => Ok((count, OrEmpty(kids)))
  }

  /** `Pages` without its cache: a slice of `/Count` slots and the leaves of
      the walk from the root's `/Kids` written into it in order; more leaves
      than slots panics. */
  function PagesOf(doc: Doc): Res<seq<seq<byte>>>
  {
    match PageTreeOf(doc)
    case Panic => Panic
    case Ok((count, ks)) => SlotsOf(doc, count, ks)
  }

  /** The page slice for a tree root with `/Count` `count` and `/Kids` `ks`. */
  function SlotsOf(doc: Doc, count: nat, ks: seq<seq<byte>>): Res<seq<seq<byte>>>
    requires forall i | 0 <= i < |ks| :: ks[i] in Universe(doc, Get(Some(doc.trailer), RootKey))
  {
    EmptyIn(Get(Some(doc.trailer), RootKey));
    match WalkFrom(doc, Get(Some(doc.trailer), RootKey), ks, 0, {})
    case Panic => Panic
    case Ok((leaves, _)) =>
      if |leaves| > count then Panic else Ok(leaves + Nils(count - |leaves|))
  }

  /** A reference of the walk's list that is already visited panics. */
  lemma {:induction false} WalkHit(doc: Doc, a: seq<byte>, p: seq<seq<byte>>, k: nat, done: set<seq<byte>>, j: nat)
    requires k <= j < |p| && p[j] in done
    requires forall i | 0 <= i < |p| :: p[i] in Universe(doc, a)
    requires done <= Universe(doc, a)
    ensures WalkFrom(doc, a, p, k, done) == Panic
    decreases |p| - k
  {
    if k == j {
      assert Visit(doc, a, p[k], done) == Panic;
    } else {
      match Visit(doc, a, p[k], done)
      case Panic =>
      case Ok((l1, d1)) =>
        WalkHit(doc, a, p, k + 1, d1, j);
    }
  }

  /** `Pages` panics when a reference repeats in a `/Kids` list. */
  lemma {:induction false} WalkRepeat(doc: Doc, a: seq<byte>, p: seq<seq<byte>>, k: nat, done: set<seq<byte>>,
                                      i: nat, j: nat)
    requires k <= i < j < |p| && p[i] == p[j]
    requires forall n | 0 <= n < |p| :: p[n] in Universe(doc, a)
    requires done <= Universe(doc, a)
    ensures WalkFrom(doc, a, p, k, done) == Panic
    decreases |p| - k
  {
    match Visit(doc, a, p[k], done)
    case Panic =>
    case Ok((l1, d1)) =>
      if k == i {
        WalkHit(doc, a, p, k + 1, d1, j);
      } else {
        WalkRepeat(doc, a, p, k + 1, d1, i, j);
      }
  }

  /** A leaf of the page tree: its dictionary resolves and has no `/Kids`. */
  predicate IsLeaf(doc: Doc, x: seq<byte>)
  {
    DicOf(doc, x).Ok? && !Has(DicOf(doc, x).value, KidsKey)
  }

  lemma ArrNonEmpty(doc: Doc, x: seq<byte>)
    ensures ArrOf(doc, x).Ok? && ArrOf(doc, x).value.Some? ==>
              forall i | 0 <= i < |ArrOf(doc, x).value.value| :: ArrOf(doc, x).value.value[i] != []
  {
    if ObjOf(doc, x).Ok? {
      ArrayOfFacts(doc.lex, ObjOf(doc, x).value);
    }
  }

  /** What a walk step yields: non-empty leaf references visited by this
      step, none twice. */
  ghost predicate LeavesOk(doc: Doc, l: seq<seq<byte>>, done: set<seq<byte>>, d': set<seq<byte>>)
  {
    (forall i | 0 <= i < |l| :: l[i] in d' && l[i] !in done && l[i] != [] && IsLeaf(doc, l[i])) &&
    (forall i, j | 0 <= i < j < |l| :: l[i] != l[j])
  }

  lemma LeavesJoin(doc: Doc, l1: seq<seq<byte>>, l2: seq<seq<byte>>, done: set<seq<byte>>,
                   d1: set<seq<byte>>, d2: set<seq<byte>>)
    requires done <= d1 <= d2
    requires LeavesOk(doc, l1, done, d1) && LeavesOk(doc, l2, d1, d2)
    ensures LeavesOk(doc, l1 + l2, done, d2)
  {
    var l := l1 + l2;
    forall i, j | 0 <= i < j < |l| ensures l[i] != l[j] {
      if i < |l1| && j >= |l1| {
        assert l[i] == l1[i] && l[j] == l2[j - |l1|];
      } else if i < |l1| {
        assert l[i] == l1[i] && l[j] == l1[j];
      } else {
        assert l[i] == l2[i - |l1|] && l[j] == l2[j - |l1|];
      }
    }
  }

  /** The leaves of one walk step that does not panic. */
  lemma {:induction false} VisitLeaves(doc: Doc, a: seq<byte>, x: seq<byte>, done: set<seq<byte>>)
    requires x in Universe(doc, a) && x != [] && done <= Universe(doc, a)
    ensures Visit(doc, a, x, done).Ok? ==>
              LeavesOk(doc, Visit(doc, a, x, done).value.0, done, Visit(doc, a, x, done).value.1)
    decreases |Universe(doc, a) - done|, 0, 0
  {
    if x !in done && DicOf(doc, x).Ok? {
      var d := DicOf(doc, x).value;
      if Has(d, KidsKey) {
        DicInUniverse(doc, a, x);
        ArrInUniverse(doc, a, d.value[KidsKey]);
        ArrNonEmpty(doc, d.value[KidsKey]);
        match ArrOf(doc, d.value[KidsKey])
        case Panic =>
        case Ok(kids) =>
          VisitCard(Universe(doc, a), done, done + {x}, x);
          var ks := if kids.Some? then kids.value else [];
          WalkLeaves(doc, a, ks, 0, done + {x});
      }
    }
  }

  /** The leaves of a walk that does not panic. */
  lemma {:induction false} WalkLeaves(doc: Doc, a: seq<byte>, p: seq<seq<byte>>, k: nat, done: set<seq<byte>>)
    requires k <= |p|
    requires forall i | 0 <= i < |p| :: p[i] in Universe(doc, a) && p[i] != []
    requires done <= Universe(doc, a)
    ensures WalkFrom(doc, a, p, k, done).Ok? ==>
              LeavesOk(doc, WalkFrom(doc, a, p, k, done).value.0, done, WalkFrom(doc, a, p, k, done).value.1)
    decreases |Universe(doc, a) - done|, 1, |p| - k
  {
    if k < |p| {
      VisitLeaves(doc, a, p[k], done);
      match Visit(doc, a, p[k], done)
      case Panic =>
      case Ok((l1, d1)) =>
        VisitCard(Universe(doc, a), done, d1, p[k]);
        WalkLeaves(doc, a, p, k + 1, d1);
        match WalkFrom(doc, a, p, k + 1, d1)
        case Panic =>
        case Ok((l2, d2)) =>
          LeavesJoin(doc, l1, l2, done, d1, d2);
    }
  }

  /** The shape of the page slice: distinct leaves, then nil slots. */
  ghost predicate PageSlots(doc: Doc, ps: seq<seq<byte>>)
  {
    (forall i | 0 <= i < |ps| && ps[i] != [] :: IsLeaf(doc, ps[i])) &&
    (forall i, j | 0 <= i < j < |ps| :: ps[i] == [] ==> ps[j] == []) &&
    (forall i, j | 0 <= i < j < |ps| && ps[i] != [] :: ps[i] != ps[j])
  }

  lemma LeavesThenNils(doc: Doc, leaves: seq<seq<byte>>, done: set<seq<byte>>, d': set<seq<byte>>, n: nat)
    requires LeavesOk(doc, leaves, done, d')
    ensures PageSlots(doc, leaves + Nils(n))
  {
    var ps := leaves + Nils(n);
    forall i | 0 <= i < |ps| && ps[i] != [] ensures IsLeaf(doc, ps[i]) {
      assert i < |leaves| && ps[i] == leaves[i];
    }
    forall i, j | 0 <= i < j < |ps| && ps[i] == [] ensures ps[j] == [] {
      assert i >= |leaves|;
    }
    forall i, j | 0 <= i < j < |ps| && ps[i] != [] ensures ps[i] != ps[j] {
      assert i < |leaves| && ps[i] == leaves[i];
      if j < |leaves| { assert ps[j] == leaves[j]; } else { assert ps[j] == []; }
    }
  }

  /** What `Pages` returns when it does not panic: the leaves first, each a
      leaf reference and none twice, then the nil slots `/Count` leaves over. */
  lemma PagesFacts(doc: Doc)
    ensures PagesOf(doc).Ok? ==> PageSlots(doc, PagesOf(doc).value)
  {
    if PagesOf(doc).Ok? {
      var root := Get(Some(doc.trailer), RootKey);
      var (count, ks) := PageTreeOf(doc).value;
      EmptyIn(root);
      WalkLeaves(doc, root, ks, 0, {});
      var w := WalkFrom(doc, root, ks, 0, {}).value;
      LeavesThenNils(doc, w.0, {}, w.1, count - |w.0|);
    }
  }

  // ---------------------------------------------------------------- attribute

  /** The `/Parent` loop of `attribute`, from the dictionary `d`: the key's
      value when `d` has it, otherwise on to the parent; empty when there is
      no parent or the parent was already visited. */
  function AttrFrom(doc: Doc, a: seq<byte>, key: seq<byte>, d: Option<Dict>, done: set<seq<byte>>): Res<seq<byte>>
    requires done <= Universe(doc, a)
    requires d.Some? ==> forall k | k in d.value :: d.value[k] in Universe(doc, a)
    decreases |Universe(doc, a) - done|
  {
    if Has(d, key) then Ok(d.value[key])
    else if !Has(d, ParentKey) then Ok([])
    else
      var r := d.value[ParentKey];
      if r in done then Ok([])
      else
        match DicOf(doc, r)
        case Panic => Panic
        case Ok(pd) =>
          DicInUniverse(doc, a, r);
          VisitCard(Universe(doc, a), done, done + {r}, r);
          AttrFrom(doc, a, key, pd, done + {r})
  }

  /** `attribute`: the unresolved value of `key` for the page `src`,
      inherited through `/Parent` (section 7.7.3.4 of ISO 32000-1). */
  function AttributeOf(doc: Doc, key: seq<byte>, src: seq<byte>): Res<seq<byte>>
  {
    WholeIn(src);
    match DicOf(doc, src)
    case Panic => Panic
    case Ok(d) =>
      DicInUniverse(doc, src, src);
      AttrFrom(doc, src, key, d, {})
  }

  /** `Att`: the attribute, resolved. */
  function AttOf(doc: Doc, key: seq<byte>, src: seq<byte>): Res<seq<byte>>
  {
    match AttributeOf(doc, key, src)
    case Panic => Panic
    case Ok(v) => ObjOf(doc, v)
  }

  /** `path` is a walk of the `/Parent` loop of `attribute` from the
      dictionary `d`, with the references `done` already visited: `path[0]`
      is the `/Parent` of `d`, each next entry is the `/Parent` of the
      dictionary the one before it names, no dictionary before the last one
      has `key`, and no entry was visited before. */
  ghost predicate ParentWalk(doc: Doc, key: seq<byte>, d: Option<Dict>, path: seq<seq<byte>>, done: set<seq<byte>>)
    decreases |path|
  {
    path == [] ||
    (!Has(d, key) && Has(d, ParentKey) && d.value[ParentKey] == path[0] && path[0] !in done &&
     DicOf(doc, path[0]).Ok? &&
     ParentWalk(doc, key, DicOf(doc, path[0]).value, path[1..], done + {path[0]}))
  }

  /** The dictionary a `/Parent` walk from `d` along `path` ends at. */
  ghost function PathEnd(doc: Doc, d: Option<Dict>, path: seq<seq<byte>>): Option<Dict>
    decreases |path|
  {
    if path == [] then d
    else
      match DicOf(doc, path[0])
      case Panic => None
      case Ok(pd) => PathEnd(doc, pd, path[1..])
  }

  /** A walk never visits a reference twice, nor one visited before it. */
  lemma {:induction false} ParentWalkDistinct(doc: Doc, key: seq<byte>, d: Option<Dict>, path: seq<seq<byte>>,
                                              done: set<seq<byte>>)
    requires ParentWalk(doc, key, d, path, done)
    ensures forall i | 0 <= i < |path| :: path[i] !in done
    ensures forall i, j | 0 <= i < j < |path| :: path[i] != path[j]
    decreases |path|
  {
    if path != [] {
      ParentWalkDistinct(doc, key, DicOf(doc, path[0]).value, path[1..], done + {path[0]});
      forall i | 1 <= i < |path|
        ensures path[i] !in done && path[i] != path[0]
      {
        assert path[i] == path[1..][i - 1];
      }
      forall i, j | 0 <= i < j < |path|
        ensures path[i] != path[j]
      {
        if i > 0 {
          assert path[i] == path[1..][i - 1] && path[j] == path[1..][j - 1];
        }
      }
    }
  }

  /** A non-empty attribute found from `d` is the value of `key` at the end
      of a `/Parent` walk from `d`: in `d` itself for the empty walk. */
  lemma {:induction false} AttrFromSource(doc: Doc, a: seq<byte>, key: seq<byte>, d: Option<Dict>, done: set<seq<byte>>)
    requires done <= Universe(doc, a)
    requires d.Some? ==> forall k | k in d.value :: d.value[k] in Universe(doc, a)
    ensures AttrFrom(doc, a, key, d, done).Ok? && AttrFrom(doc, a, key, d, done).value != [] ==>
              exists path :: ParentWalk(doc, key, d, path, done) && Has(PathEnd(doc, d, path), key) &&
                             PathEnd(doc, d, path).value[key] == AttrFrom(doc, a, key, d, done).value
    decreases |Universe(doc, a) - done|
  {
    var v := AttrFrom(doc, a, key, d, done);
    if Has(d, key) {
      assert ParentWalk(doc, key, d, [], done) && PathEnd(doc, d, []) == d;
    } else if Has(d, ParentKey) {
      var r := d.value[ParentKey];
      if r !in done && DicOf(doc, r).Ok? {
        var pd := DicOf(doc, r).value;
        DicInUniverse(doc, a, r);
        VisitCard(Universe(doc, a), done, done + {r}, r);
        AttrFromSource(doc, a, key, pd, done + {r});
        if v.Ok? && v.value != [] {
          assert v == AttrFrom(doc, a, key, pd, done + {r});
          var path :| ParentWalk(doc, key, pd, path, done + {r}) && Has(PathEnd(doc, pd, path), key) &&
                      PathEnd(doc, pd, path).value[key] == v.value;
          assert ([r] + path)[1..] == path;
          assert ParentWalk(doc, key, d, [r] + path, done);
          assert PathEnd(doc, d, [r] + path) == PathEnd(doc, pd, path);
        }
      }
    }
  }

  /** Conversely, a `/Parent` walk from `d` that ends at a dictionary with
      `key` gives that dictionary's value. */
  lemma {:induction false} AttrFromPath(doc: Doc, a: seq<byte>, key: seq<byte>, d: Option<Dict>, path: seq<seq<byte>>,
                                        done: set<seq<byte>>)
    requires done <= Universe(doc, a)
    requires d.Some? ==> forall k | k in d.value :: d.value[k] in Universe(doc, a)
    requires ParentWalk(doc, key, d, path, done) && Has(PathEnd(doc, d, path), key)
    ensures AttrFrom(doc, a, key, d, done) == Ok(PathEnd(doc, d, path).value[key])
    decreases |path|
  {
    if path != [] {
      var r := path[0];
      DicInUniverse(doc, a, r);
      AttrFromPath(doc, a, key, DicOf(doc, r).value, path[1..], done + {r});
    }
  }

  /** A `/Parent` walk from `d` whose last dictionary lacks `key` and names
      as its parent a reference already visited, before the walk or on it,
      gives the empty value. */
  lemma {:induction false} AttrFromCycle(doc: Doc, a: seq<byte>, key: seq<byte>, d: Option<Dict>, path: seq<seq<byte>>,
                                         done: set<seq<byte>>)
    requires done <= Universe(doc, a)
    requires d.Some? ==> forall k | k in d.value :: d.value[k] in Universe(doc, a)
    requires ParentWalk(doc, key, d, path, done)
    requires !Has(PathEnd(doc, d, path), key) && Has(PathEnd(doc, d, path), ParentKey)
    requires PathEnd(doc, d, path).value[ParentKey] in done || PathEnd(doc, d, path).value[ParentKey] in path
    ensures AttrFrom(doc, a, key, d, done) == Ok([])
    decreases |path|
  {
    if path != [] {
      var r := path[0];
      DicInUniverse(doc, a, r);
      var e := PathEnd(doc, d, path).value[ParentKey];
      assert e in path ==> e == r || e in path[1..] by {
        if e in path {
          var i :| 0 <= i < |path| && path[i] == e;
          if i > 0 {
            assert path[1..][i - 1] == e;
          }
        }
      }
      AttrFromCycle(doc, a, key, DicOf(doc, r).value, path[1..], done + {r});
    }
  }

  /** `attribute`'s result, when not empty, is the value of `key` in the
      page's dictionary or at the end of a `/Parent` walk from it. */
  lemma AttributeSource(doc: Doc, key: seq<byte>, src: seq<byte>)
    ensures AttributeOf(doc, key, src).Ok? && AttributeOf(doc, key, src).value != [] ==>
              DicOf(doc, src).Ok? &&
              exists path :: ParentWalk(doc, key, DicOf(doc, src).value, path, {}) &&
                             Has(PathEnd(doc, DicOf(doc, src).value, path), key) &&
                             PathEnd(doc, DicOf(doc, src).value, path).value[key] == AttributeOf(doc, key, src).value
  {
    WholeIn(src);
    if DicOf(doc, src).Ok? {
      DicInUniverse(doc, src, src);
      AttrFromSource(doc, src, key, DicOf(doc, src).value, {});
    }
  }

  /** Inheritance along any `/Parent` walk from the page: the first
      dictionary on it with the key supplies the value. */
  lemma AttributeAlong(doc: Doc, key: seq<byte>, src: seq<byte>, d: Option<Dict>, path: seq<seq<byte>>)
    requires DicOf(doc, src) == Ok(d) && ParentWalk(doc, key, d, path, {}) && Has(PathEnd(doc, d, path), key)
    ensures AttributeOf(doc, key, src) == Ok(PathEnd(doc, d, path).value[key])
  {
    WholeIn(src);
    DicInUniverse(doc, src, src);
    AttrFromPath(doc, src, key, d, path, {});
  }

  /** One step of inheritance: a page without the key takes its parent's. */
  lemma AttributeInherited(doc: Doc, key: seq<byte>, src: seq<byte>, d: Option<Dict>, pd: Option<Dict>)
    requires DicOf(doc, src) == Ok(d) && !Has(d, key) && Has(d, ParentKey)
    requires DicOf(doc, d.value[ParentKey]) == Ok(pd) && Has(pd, key)
    ensures AttributeOf(doc, key, src) == Ok(pd.value[key])
  {
    WholeIn(src);
    DicInUniverse(doc, src, src);
    var r := d.value[ParentKey];
    DicInUniverse(doc, src, r);
    assert AttributeOf(doc, key, src) == AttrFrom(doc, src, key, d, {});
    assert AttrFrom(doc, src, key, d, {}) == AttrFrom(doc, src, key, pd, {r});
  }

  /** A parent seen twice ends the search with the empty value: a `/Parent`
      walk from the page whose last dictionary lacks the key and names as
      its parent a reference already on the walk. */
  lemma AttributeCycle(doc: Doc, key: seq<byte>, src: seq<byte>, d: Option<Dict>, path: seq<seq<byte>>)
    requires DicOf(doc, src) == Ok(d) && ParentWalk(doc, key, d, path, {})
    requires !Has(PathEnd(doc, d, path), key) && Has(PathEnd(doc, d, path), ParentKey)
    requires PathEnd(doc, d, path).value[ParentKey] in path
    ensures AttributeOf(doc, key, src) == Ok([])
  {
    WholeIn(src);
    DicInUniverse(doc, src, src);
    AttrFromCycle(doc, src, key, d, path, {});
  }

  // ---------------------------------------------------------------- stream

  /** `stream`: resolves the reference, reads the dictionary and its
      `/Length`, and after the `stream` keyword and one line end takes that
      many bytes; (nil, empty) when the keyword is missing. A seek to a
      negative offset or a read past the end of the file is a failure here. */
  function StreamOf(doc: Doc, ref: seq<byte>): Res<(Option<Dict>, seq<byte>)>
  {
    match ResolveOf(doc, ref)
    case Panic => Panic
    case Ok((q, d)) =>
      match DicOf(doc, d)
      case Panic => Panic
      case Ok(dic) =>
        match NumRefOf(doc, Get(dic, LengthKey))
        case Panic => Panic
        case Ok(l) => StreamAt(doc, q, dic, l)
  }

  /** The stream at offset `q`: its keyword, its line end and `l` bytes. */
  function StreamAt(doc: Doc, q: int, dic: Option<Dict>, l: nat): Res<(Option<Dict>, seq<byte>)>
  {
    if q < 0 then Panic
    else
      var t := doc.lex(doc.src, q);
      if t.text != StreamKeyword then Ok((None, []))
      else
        var p := SkipLE(doc.src, t.next);
        if p + l > |doc.src| then Panic else Ok((dic, doc.src[p..p + l]))
  }

  /** Stream data is taken from the file, and holds exactly `/Length` bytes
      of the dictionary returned with it. */
  lemma StreamFacts(doc: Doc, ref: seq<byte>)
    ensures StreamOf(doc, ref).Ok? ==>
              var (dic, data) := StreamOf(doc, ref).value;
              data in Slices(doc.src) &&
              (data != [] ==> NumRefOf(doc, Get(dic, LengthKey)) == Ok(|data|))
  {
    EmptyIn(doc.src);
    if StreamOf(doc, ref).Ok? {
      var (q, d) := ResolveOf(doc, ref).value;
      if q >= 0 {
        var t := doc.lex(doc.src, q);
        var l := NumRefOf(doc, Get(DicOf(doc, d).value, LengthKey)).value;
        if t.text == StreamKeyword {
          var p := SkipLE(doc.src, t.next);
          SliceIn(doc.src, p, p + l);
        }
      }
    }
  }

  // ---------------------------------------------------------------- DecodedStream

  const FlateName: seq<byte> := Str("/FlateDecode")
  const LzwName: seq<byte> := Str("/LZWDecode")
  const Ascii85Name: seq<byte> := Str("/ASCII85Decode")
  const HexName: seq<byte> := Str("/ASCIIHexDecode")

  /** The decoders the dispatch hands data to (zlib inflate, LZW with its
      early-change flag, ASCII85 and hex); their code is not part of this
      model. The LZW decoder may panic, on a code stream that runs out
      before its end code or names a code past the table. */
  datatype Codecs = Codecs(inflate: seq<byte> -> seq<byte>, lzw: (seq<byte>, bool) -> Res<seq<byte>>,
                           ascii85: seq<byte> -> seq<byte>, hex: seq<byte> -> seq<byte>)

  /** ASCII85 input without its trailing bytes below 33, keeping at least
      one byte. */
  function TrimLow(ds: seq<byte>): (r: seq<byte>)
    ensures |r| <= |ds| && r == ds[..|r|]
    ensures |ds| >= 1 ==> |r| >= 1
    ensures |r| > 1 ==> r[|r| - 1] >= 33
    ensures forall i | |r| <= i < |ds| :: ds[i] < 33
  {
    if |ds| > 1 && ds[|ds| - 1] < 33 then TrimLow(ds[..|ds| - 1]) else ds
  }

  /** ASCII85 input as the decoder gets it: trimmed, then without a
      trailing `~>`. */
  function A85Trim(ds: seq<byte>): (r: seq<byte>)
    ensures |r| <= |ds| && r == ds[..|r|]
    ensures r == TrimLow(ds) || r + ['~' as byte, '>' as byte] == TrimLow(ds)
  {
    var d := TrimLow(ds);
    if |d| >= 2 && d[|d| - 1] == '>' as byte && d[|d| - 2] == '~' as byte then d[..|d| - 2] else d
  }

  /** The LZW early-change flag: true unless the parameters dictionary has
      `/EarlyChange`, and then true exactly when it resolves to 1. */
  function EarlyOf(doc: Doc, deco: Option<Dict>): Res<bool>
  {
    if Has(deco, EarlyChangeKey) then
      match NumRefOf(doc, deco.value[EarlyChangeKey])
      case Panic => Panic
      case Ok(n) => Ok(n == 1)
    else Ok(true)
  }

  /** One filter of the dispatch; an unknown name empties the data. */
  function ApplyFilter(doc: Doc, c: Codecs, name: seq<byte>, deco: Option<Dict>, data: seq<byte>): Res<seq<byte>>
  {
    if name == FlateName then Ok(c.inflate(data))
    else if name == LzwName then
      match EarlyOf(doc, deco)
      case Panic => Panic
      case Ok(early) => c.lzw(data, early)
    else if name == Ascii85Name then Ok(c.ascii85(A85Trim(data)))
    else if name == HexName then Ok(c.hex(data))
    else Ok([])
  }

  /** Only the LZW filter can panic: when its early-change flag does not
      resolve, or when the decoder itself fails. */
  lemma FilterPanics(doc: Doc, c: Codecs, name: seq<byte>, deco: Option<Dict>, data: seq<byte>)
    ensures ApplyFilter(doc, c, name, deco, data).Panic? <==>
              name == LzwName && (EarlyOf(doc, deco).Panic? || c.lzw(data, EarlyOf(doc, deco).value).Panic?)
  {
    if name == LzwName {
      LzwFilter(doc, c, deco, data);
    } else {
      OtherFiltersOk(doc, c, name, deco, data);
    }
  }

  lemma LzwFilter(doc: Doc, c: Codecs, deco: Option<Dict>, data: seq<byte>)
    ensures ApplyFilter(doc, c, LzwName, deco, data) ==
            if EarlyOf(doc, deco).Panic? then Panic else c.lzw(data, EarlyOf(doc, deco).value)
  {
    assert |LzwName| != |FlateName|;
  }

  lemma OtherFiltersOk(doc: Doc, c: Codecs, name: seq<byte>, deco: Option<Dict>, data: seq<byte>)
    requires name != LzwName
    ensures ApplyFilter(doc, c, name, deco, data).Ok?
  {
  }

  /** The filters `filter[ff..]` applied in array order, each with the
      dictionary its parameters entry resolves to; a missing parameters
      entry panics. */
  function ApplyFilters(doc: Doc, c: Codecs, filter: seq<seq<byte>>, decos: seq<seq<byte>>, ff: nat,
                        data: seq<byte>): Res<seq<byte>>
    decreases |filter| - ff
  {
    if ff >= |filter| then Ok(data)
    else if ff >= |decos| then Panic
    else
      match DicOf(doc, decos[ff])
      case Panic => Panic
      case Ok(deco) =>
        match ApplyFilter(doc, c, filter[ff], deco, data)
        case Panic => Panic
        case Ok(next) => ApplyFilters(doc, c, filter, decos, ff + 1, next)
  }

  /** One filter of `ApplyFilters`, once its parameters dictionary is known. */
  lemma FiltersUnfold(doc: Doc, c: Codecs, filter: seq<seq<byte>>, decos: seq<seq<byte>>, ff: nat,
                      data: seq<byte>, deco: Option<Dict>)
    requires ff < |filter| && ff < |decos| && DicOf(doc, decos[ff]) == Ok(deco)
    ensures ApplyFilters(doc, c, filter, decos, ff, data) ==
            (var a := ApplyFilter(doc, c, filter[ff], deco, data);
             if a.Panic? then Panic else ApplyFilters(doc, c, filter, decos, ff + 1, a.value))
  {
  }

  function OrEmpty(a: Option<seq<seq<byte>>>): seq<seq<byte>>
  {
    if a.Some? then a.value else []
  }

  /** `DecodedStream`: the stream's data with its filters applied. */
  function DecodedOf(doc: Doc, c: Codecs, ref: seq<byte>): Res<(Option<Dict>, seq<byte>)>
  {
    match StreamOf(doc, ref)
    case Panic => Panic
    case Ok((dic, data)) =>
      match DecodeOf(doc, c, dic, data)
      case Panic => Panic
      case Ok(out) => Ok((dic, out))
  }

  /** Stream data run through the `/Filter` entries of its dictionary, their
      parameters taken from `/DecodeParams`. */
  function DecodeOf(doc: Doc, c: Codecs, dic: Option<Dict>, data: seq<byte>): Res<seq<byte>>
  {
    if !Has(dic, FilterKey) then Ok(data)
    else
      match ForcedArrayOf(doc, dic.value[FilterKey])
      case Panic => Panic
      case Ok(f) =>
        match DecosOf(doc, dic, |OrEmpty(f)|)
        case Panic => Panic
        case Ok(ds) => ApplyFilters(doc, c, OrEmpty(f), ds, 0, data)
  }

  /** The `/DecodeParams` list, or `n` nil entries when there is none. */
  function DecosOf(doc: Doc, dic: Option<Dict>, n: nat): Res<seq<seq<byte>>>
  {
    if Has(dic, DecodeParamsKey) then
      match ForcedArrayOf(doc, dic.value[DecodeParamsKey])
      case Panic => Panic
      case Ok(d) => Ok(OrEmpty(d))
    else Ok(Nils(n))
  }

  predicate KnownFilter(name: seq<byte>)
  {
    name == FlateName || name == LzwName || name == Ascii85Name || name == HexName
  }

  /** An unknown last filter leaves no data, whatever came before it. */
  lemma {:induction false} UnknownLastFilter(doc: Doc, c: Codecs, filter: seq<seq<byte>>, decos: seq<seq<byte>>,
                                             ff: nat, data: seq<byte>)
    requires ff < |filter| && !KnownFilter(filter[|filter| - 1])
    requires ApplyFilters(doc, c, filter, decos, ff, data).Ok?
    ensures ApplyFilters(doc, c, filter, decos, ff, data) == Ok([])
    decreases |filter| - ff
  {
    var deco := DicOf(doc, decos[ff]).value;
    var next := ApplyFilter(doc, c, filter[ff], deco, data).value;
    if ff + 1 < |filter| {
      UnknownLastFilter(doc, c, filter, decos, ff + 1, next);
    }
  }

  /** The early-change flag is false exactly when `/EarlyChange` is present
      and does not resolve to 1. */
  lemma EarlyDefault(doc: Doc, deco: Option<Dict>)
    requires EarlyOf(doc, deco).Ok?
    ensures !EarlyOf(doc, deco).value <==>
              Has(deco, EarlyChangeKey) && NumRefOf(doc, deco.value[EarlyChangeKey]) != Ok(1)
  {
  }
}
