/** The reader object of pdfread.go: `Load` builds it from the file, and its
    methods answer through three caches (`rcache`/`rncache` for resolved
    references, `dicache` for dictionaries) and the `pages` slice. Every
    method is proved to return exactly what the cache-free functions of
    `PdfObjects` give, and to keep every cached answer equal to them; the
    caches only ever grow. */
module PdfReader {
  import opened Bytes
  import opened Lexer
  import opened PdfSyntax
  import opened PdfXref
  import opened PdfObjects

  /** `Load` without the reader object: -1 from `xrefStart` ends the
      program (a failure here); a cross-reference chain that does not read
      gives nil; the trailer is the dictionary after the `trailer` token that
      follows the newest section, and nil when that does not parse. */
  function LoadOf(lex: Lex, src: seq<byte>, startxref: int): Res<Option<(map<nat, nat>, Dict)>>
  {
    if startxref < 0 then Panic
    else
      match XrefOf(lex, src, startxref)
      case Panic => Panic
      case Ok(None) => Ok(None)
      case Ok(Some(x)) =>
        match XrefSkipOf(lex, src, startxref)
        case Panic => Panic
        case Ok(e) =>
          if e < 0 then Panic
          else
            var t := lex(src, e);
            if t.text != TrailerKeyword then Ok(None)
            else
              match DictOf(lex, lex(src, t.next).text)
              case None => Ok(None)
              case Some(d) => Ok(Some((x, d)))
  }

  /** The newest section decides the trailer: once the cross-reference
      chain reads, `Load` succeeds exactly when the trailer of the section at
      `startxref` parses, and then keeps that trailer. */
  lemma LoadTakesNewestTrailer(lex: Lex, src: seq<byte>, startxref: nat)
    requires XrefOf(lex, src, startxref).Ok? && XrefOf(lex, src, startxref).value.Some?
    ensures SectionOk(lex, src, startxref)
    ensures LoadOf(lex, src, startxref) ==
              match TrailerOf(lex, src, startxref)
              case None => Ok(None)
              case Some(d) => Ok(Some((XrefOf(lex, src, startxref).value.value, d)))
  {
    var secs := ChainFrom(lex, src, startxref, 0).value.value;
    assert ChainOk(lex, src, secs) && secs[0] == startxref;
  }

  class Reader {
    const lex: Lex
    const src: seq<byte>
    /** Where the newest cross-reference section starts. */
    const startxref: nat
    const xref: map<nat, nat>
    const trailer: Dict
    var rcache: map<seq<byte>, seq<byte>>
    var rncache: map<seq<byte>, int>
    var dicache: map<seq<byte>, Option<Dict>>
    var pages: Option<seq<seq<byte>>>

    function Document(): Doc
    {
      Doc(lex, src, xref, trailer)
    }

    /** Every cached resolution and dictionary is the cache-free one. */
    ghost predicate CachesOk()
      reads this
    {
      rcache.Keys == rncache.Keys &&
      (forall k | k in rcache :: ResolveFrom(Document(), k, {}) == Ok((rncache[k], rcache[k]))) &&
      (forall k | k in dicache :: DicOf(Document(), k) == Ok(dicache[k]))
    }

    /** The caches still hold every entry of `r0` and `d0`: they only grow,
        and by `CachesOk` an entry never changes its value. */
    ghost predicate Keeps(r0: map<seq<byte>, seq<byte>>, d0: map<seq<byte>, Option<Dict>>)
      reads this
    {
      r0.Keys <= rcache.Keys && d0.Keys <= dicache.Keys
    }

    /** Every cached answer, the page slice included, is the cache-free one. */
    ghost predicate Valid()
      reads this
    {
      CachesOk() && (pages.Some? ==> PagesOf(Document()) == Ok(pages.value))
    }

    constructor (lex: Lex, src: seq<byte>, startxref: nat, xref: map<nat, nat>, trailer: Dict)
      ensures this.lex == lex && this.src == src && this.startxref == startxref
      ensures this.xref == xref && this.trailer == trailer
      ensures rcache == map[] && rncache == map[] && dicache == map[] && pages == None
      ensures Valid()
    {
      this.lex := lex;
      this.src := src;
      this.startxref := startxref;
      this.xref := xref;
      this.trailer := trailer;
      rcache := map[];
      rncache := map[];
      dicache := map[];
      pages := None;
    }

    /** `Load`, from the tokenizer, the file bytes and the offset `xrefStart`
        found (-1 when it found none). */
    static method Load(lex: Lex, src: seq<byte>, startxref: int) returns (r: Res<Option<Reader>>)
      requires startxref >= -1
      ensures match LoadOf(lex, src, startxref)
              case Panic => r.Panic?
              case Ok(None) => r == Ok(None)
              case Ok(Some((x, t))) =>
                r.Ok? && r.value.Some? && fresh(r.value.value) && r.value.value.Valid() &&
                r.value.value.xref == x && r.value.value.trailer == t &&
                r.value.value.src == src && r.value.value.lex == lex && r.value.value.startxref == startxref
    {
      if startxref == -1 {
        return Panic;
      }
      var x := XrefRead(lex, src, startxref);
      if x.Panic? {
        return Panic;
      }
      if x.value.None? {
        return Ok(None);
      }
      var e := XrefSkip(lex, src, startxref);
      if e.Panic? {
        return Panic;
      }
      if e.value < 0 {
        return Panic;
      }
      var t := lex(src, e.value);
      if t.text != TrailerKeyword {
        return Ok(None);
      }
      var d := Dictionary(lex, lex(src, t.next).text);
      if d.None? {
        return Ok(None);
      }
      var rd := new Reader(lex, src, startxref, x.value.value, d.value);
      return Ok(Some(rd));
    }

    /** `object`: reads the `o g obj` header at the offset of `o` and the
        value after it. */
    method Object(o: nat) returns (n: int, t: seq<byte>)
      ensures (n, t) == ObjectAt(Document(), o)
    {
      if o !in xref {
        return -1, [];
      }
      var m, q := Tupel(lex, src, xref[o], 3);
      var k := Num(m[0]);
      if k != o {
        return -1, [];
      }
      var tok := RefToken(lex, src, q);
      return tok.start + |tok.text|, tok.text;
    }

    /** The inner `resolve`: a cache hit answers at once; otherwise the
        object is read, followed on while it looks like a reference, and the
        answer is cached for the reference. `path` is the chain of references
        this call came through, whose object numbers are `done`. */
    method ResolveInner(s: seq<byte>, done: set<nat>, ghost path: seq<seq<byte>>) returns (r: Res<(int, seq<byte>)>)
      requires CachesOk() && Linked(Document(), path + [s]) && done == Nums(path)
      modifies this`rcache, this`rncache, this`dicache
      ensures Keeps(old(rcache), old(dicache))
      ensures CachesOk()
      ensures r == ResolveFrom(Document(), s, {})
      ensures r.Ok? && IsRef(s) && NumOf(s) !in done ==> s in rcache
      ensures r.Ok? ==> ChainCached(Document(), rcache.Keys, old(rcache).Keys, s, done)
      decreases |xref.Keys - done|
    {
      ResolveFresh(Document(), path, s);
      if !IsRef(s) {
        return Ok((-1, s));
      }
      if s in rcache {
        return Ok((rncache[s], rcache[s]));
      }
      var o := Num(s);
      if o in done {
        return Ok((-1, []));
      }
      var n, t := Object(o);
      ResolveUnfold(Document(), s, done, o, n, t);
      if t == [] {
        return Panic;
      }
      if LooksRef(t) {
        ghost var doc := Document();
        FollowLink(doc, path, s, t);
        ResolveFresh(doc, path + [s], t);
        CardStep(xref.Keys, done, o);
        ghost var k0 := rcache.Keys;
        var inner := ResolveInner(t, done + {o}, path + [s]);
        if inner.Panic? {
          return Panic;
        }
        ghost var k1 := rcache.Keys;
        Remember(s, inner.value.0, inner.value.1);
        ChainCachedGrows(doc, k1, rcache.Keys, k0, t, done + {o});
        return inner;
      }
      Remember(s, n, t);
      return Ok((n, t));
    }

    /** Caches the resolution of `s`. */
    method Remember(s: seq<byte>, n: int, t: seq<byte>)
      requires CachesOk() && ResolveFrom(Document(), s, {}) == Ok((n, t))
      modifies this`rcache, this`rncache, this`dicache
      ensures Keeps(old(rcache), old(dicache))
      ensures CachesOk()
      ensures rcache == old(rcache)[s := t] && rncache == old(rncache)[s := n]
      ensures dicache == old(dicache) && pages == old(pages)
    {
      rcache := rcache[s := t];
      rncache := rncache[s := n];
    }

    /** `resolve`: a value shorter than five bytes or not ending in `R` is
        its own answer. */
    method Resolve(s: seq<byte>) returns (r: Res<(int, seq<byte>)>)
      requires CachesOk()
      modifies this`rcache, this`rncache, this`dicache
      ensures Keeps(old(rcache), old(dicache))
      ensures CachesOk()
      ensures r == ResolveOf(Document(), s)
      ensures r.Ok? && IsRef(s) ==> s in rcache
      ensures r.Ok? ==> ChainCached(Document(), rcache.Keys, old(rcache).Keys, s, {})
    {
      if |s| < 5 || s[|s| - 1] != 'R' as byte {
        return Ok((-1, s));
      }
      assert [] + [s] == [s];
      assert Nums([]) == {};
      r := ResolveInner(s, {}, []);
    }

    /** `obj`. */
    method Obj(s: seq<byte>) returns (r: Res<seq<byte>>)
      requires CachesOk()
      modifies this`rcache, this`rncache, this`dicache
      ensures Keeps(old(rcache), old(dicache))
      ensures CachesOk()
      ensures r == ObjOf(Document(), s)
    {
      var x := Resolve(s);
      if x.Panic? {
        return Panic;
      }
      return Ok(x.value.1);
    }

    /** The `num` method. */
    method NumRef(s: seq<byte>) returns (r: Res<nat>)
      requires CachesOk()
      modifies this`rcache, this`rncache, this`dicache
      ensures Keeps(old(rcache), old(dicache))
      ensures CachesOk()
      ensures r == NumRefOf(Document(), s)
    {
      var x := Obj(s);
      if x.Panic? {
        return Panic;
      }
      var n := Num(x.value);
      return Ok(n);
    }

    /** `Dic`: answered from `dicache` when it can be, otherwise parsed and
        cached (a nil dictionary is cached too). */
    method Dic(s: seq<byte>) returns (r: Res<Option<Dict>>)
      requires CachesOk()
      modifies this`rcache, this`rncache, this`dicache
      ensures Keeps(old(rcache), old(dicache))
      ensures CachesOk()
      ensures r == DicOf(Document(), s)
      ensures s in old(dicache) ==> r == Ok(old(dicache)[s]) && rcache == old(rcache)
      ensures r.Ok? ==> s in dicache
    {
      if s in dicache {
        return Ok(dicache[s]);
      }
      var x := Obj(s);
      if x.Panic? {
        return Panic;
      }
      var d := Dictionary(lex, x.value);
      dicache := dicache[s := d];
      return Ok(d);
    }

    /** `Arr`. */
    method Arr(s: seq<byte>) returns (r: Res<Option<seq<seq<byte>>>>)
      requires CachesOk()
      modifies this`rcache, this`rncache, this`dicache
      ensures Keeps(old(rcache), old(dicache))
      ensures CachesOk()
      ensures r == ArrOf(Document(), s)
    {
      var x := Obj(s);
      if x.Panic? {
        return Panic;
      }
      r := Array(lex, x.value);
    }

    /** `ForcedArray`. */
    method ForcedArray(s: seq<byte>) returns (r: Res<Option<seq<seq<byte>>>>)
      requires CachesOk()
      modifies this`rcache, this`rncache, this`dicache
      ensures Keeps(old(rcache), old(dicache))
      ensures CachesOk()
      ensures r == ForcedArrayOf(Document(), s)
    {
      var x := Obj(s);
      if x.Panic? || x.value == [] {
        return Panic;
      }
      if x.value[0] != '[' as byte {
        return Ok(Some([s]));
      }
      r := Array(lex, x.value);
    }

    /** The `/Pages` dictionary of the trailer's `/Root`, as `Pages` reads it. */
    method PagesDic() returns (r: Res<Option<Dict>>)
      requires CachesOk()
      modifies this`rcache, this`rncache, this`dicache
      ensures Keeps(old(rcache), old(dicache))
      ensures CachesOk()
      ensures r == PagesDicOf(Document())
    {
      var rd := Dic(Get(Some(trailer), RootKey));
      if rd.Panic? {
        return Panic;
      }
      r := Dic(Get(rd.value, PagesKey));
    }

    /** The `/Count` and the `/Kids` of the page tree's root. */
    method PageTree() returns (r: Res<(nat, seq<seq<byte>>)>)
      requires CachesOk()
      modifies this`rcache, this`rncache, this`dicache
      ensures Keeps(old(rcache), old(dicache))
      ensures CachesOk()
      ensures r == PageTreeOf(Document())
    {
      var pd := PagesDic();
      if pd.Panic? {
        return Panic;
      }
      var count := NumRef(Get(pd.value, CountKey));
      if count.Panic? {
        return Panic;
      }
      var kids := Arr(Get(pd.value, KidsKey));
      if kids.Panic? {
        return Panic;
      }
      return Ok((count.value, OrEmpty(kids.value)));
    }

    /** `Pages`: the cached slice when there is one; otherwise `/Count`
        slots filled, in the order of the depth-first walk, with the leaves
        of the page tree. */
    method Pages() returns (r: Res<seq<seq<byte>>>)
      requires Valid()
      modifies this
      ensures Keeps(old(rcache), old(dicache))
      ensures Valid()
      ensures r == PagesOf(Document())
      ensures r.Ok? ==> pages == Some(r.value)
    {
      if pages.Some? {
        return Ok(pages.value);
      }
      r := WalkPages();
      if r.Ok? {
        pages := Some(r.value);
      }
    }

    /** The page slice built from the page tree, as `Pages` builds it when
        nothing is cached. */
    method WalkPages() returns (r: Res<seq<seq<byte>>>)
      requires CachesOk()
      modifies this`rcache, this`rncache, this`dicache
      ensures Keeps(old(rcache), old(dicache))
      ensures CachesOk()
      ensures r == PagesOf(Document())
    {
      var tree := PageTree();
      if tree.Panic? {
        return Panic;
      }
      r := Collect(tree.value.0, tree.value.1);
    }

    /** The page slice of `Pages`: `count` nil slots, and the walk from the
        root's `/Kids` `ks` writing the leaves into them in order. */
    method Collect(count: nat, ks: seq<seq<byte>>) returns (r: Res<seq<seq<byte>>>)
      requires CachesOk() && forall i | 0 <= i < |ks| :: ks[i] in Universe(Document(), Get(Some(trailer), RootKey))
      modifies this`rcache, this`rncache, this`dicache
      ensures Keeps(old(rcache), old(dicache))
      ensures CachesOk()
      ensures r == SlotsOf(Document(), count, ks)
    {
      var buf := new seq<byte>[count](_ => []);
      ghost var root := Get(Some(trailer), RootKey);
      assert buf[..] == Nils(count);
      var w := WalkKids(ks, buf, 0, {}, root);
      if w.Panic? {
        return Panic;
      }
      FilledNils(count, WalkFrom(Document(), root, ks, 0, {}).value.0, buf[..]);
      return Ok(buf[..]);
    }

    /** `attribute`: the value of `key` in the page dictionary of `src`,
        otherwise in the nearest dictionary up the `/Parent` chain that has
        it; empty when the chain ends or comes back to a parent already seen. */
    method Attribute(key: seq<byte>, src: seq<byte>) returns (r: Res<seq<byte>>)
      requires CachesOk()
      modifies this`rcache, this`rncache, this`dicache
      ensures Keeps(old(rcache), old(dicache))
      ensures CachesOk()
      ensures r == AttributeOf(Document(), key, src)
    {
      ghost var doc := Document();
      ghost var u := Universe(doc, src);
      var d := Dic(src);
      if d.Panic? {
        return Panic;
      }
      WholeIn(src);
      DicInUniverse(doc, src, src);
      var cur, done := d.value, {};
      while !Has(cur, key)
        invariant CachesOk() && Keeps(old(rcache), old(dicache)) && done <= u
        invariant cur.Some? ==> forall k | k in cur.value :: cur.value[k] in u
        invariant AttributeOf(doc, key, src) == AttrFrom(doc, src, key, cur, done)
        decreases |u - done|
      {
        if !Has(cur, ParentKey) {
          return Ok([]);
        }
        var parent := cur.value[ParentKey];
        if parent in done {
          return Ok([]);
        }
        var pd := Dic(parent);
        if pd.Panic? {
          return Panic;
        }
        DicInUniverse(doc, src, parent);
        VisitCard(u, done, done + {parent}, parent);
        cur, done := pd.value, done + {parent};
      }
      return Ok(cur.value[key]);
    }

    /** `Att`: the attribute, resolved. */
    method Att(key: seq<byte>, src: seq<byte>) returns (r: Res<seq<byte>>)
      requires CachesOk()
      modifies this`rcache, this`rncache, this`dicache
      ensures Keeps(old(rcache), old(dicache))
      ensures CachesOk()
      ensures r == AttOf(Document(), key, src)
    {
      var v := Attribute(key, src);
      if v.Panic? {
        return Panic;
      }
      r := Obj(v.value);
    }

    /** `stream`: the stream dictionary and the `/Length` bytes after the
        `stream` keyword and its line end. */
    method Stream(ref: seq<byte>) returns (r: Res<(Option<Dict>, seq<byte>)>)
      requires CachesOk()
      modifies this`rcache, this`rncache, this`dicache
      ensures Keeps(old(rcache), old(dicache))
      ensures CachesOk()
      ensures r.Ok? <==> StreamOf(Document(), ref).Ok?
      ensures r.Ok? ==> r.value.0 == StreamOf(Document(), ref).value.0 && r.value.1 == StreamOf(Document(), ref).value.1
    {
      var x := Resolve(ref);
      if x.Panic? {
        return Panic;
      }
      var q, d := x.value.0, x.value.1;
      var dic := Dic(d);
      if dic.Panic? {
        return Panic;
      }
      var l := NumRef(Get(dic.value, LengthKey));
      if l.Panic? {
        return Panic;
      }
      r := ReadStream(q, dic.value, l.value);
    }

    /** The seek to the stream at offset `q` and the read of its bytes. */
    method ReadStream(q: int, dic: Option<Dict>, l: nat) returns (r: Res<(Option<Dict>, seq<byte>)>)
      ensures r.Ok? <==> StreamAt(Document(), q, dic, l).Ok?
      ensures r.Ok? ==> r.value.0 == StreamAt(Document(), q, dic, l).value.0 &&
                        r.value.1 == StreamAt(Document(), q, dic, l).value.1
    {
      if q < 0 {
        return Panic;
      }
      var t := lex(src, q);
      if t.text != StreamKeyword {
        return Ok((None, []));
      }
      var p := SkipLE(src, t.next);
      if p + l > |src| {
        return Panic;
      }
      return Ok((dic, src[p..p + l]));
    }

    /** The `/EarlyChange` flag of the LZW filter's parameters. */
    method Early(deco: Option<Dict>) returns (r: Res<bool>)
      requires CachesOk()
      modifies this`rcache, this`rncache, this`dicache
      ensures Keeps(old(rcache), old(dicache))
      ensures CachesOk()
      ensures r == EarlyOf(Document(), deco)
    {
      if !Has(deco, EarlyChangeKey) {
        return Ok(true);
      }
      var n := NumRef(deco.value[EarlyChangeKey]);
      if n.Panic? {
        return Panic;
      }
      return Ok(n.value == 1);
    }

    /** One case of the filter switch of `DecodedStream`. */
    method Filter(c: Codecs, name: seq<byte>, deco: Option<Dict>, data: seq<byte>) returns (r: Res<seq<byte>>)
      requires CachesOk()
      modifies this`rcache, this`rncache, this`dicache
      ensures Keeps(old(rcache), old(dicache))
      ensures CachesOk()
      ensures r == ApplyFilter(Document(), c, name, deco, data)
    {
      if name == FlateName {
        return Ok(c.inflate(data));
      } else if name == LzwName {
        var early := Early(deco);
        if early.Panic? {
          return Panic;
        }
        r := c.lzw(data, early.value);
        return;
      } else if name == Ascii85Name {
        var ds := Trim85(data);
        return Ok(c.ascii85(ds));
      } else if name == HexName {
        return Ok(c.hex(data));
      }
      return Ok([]);
    }

    /** `DecodedStream`: the stream data run through its `/Filter` list in
        order, each filter with the parameters dictionary at the same index
        of `/DecodeParams` (nil ones when there is no such entry). */
    method DecodedStream(c: Codecs, ref: seq<byte>) returns (r: Res<(Option<Dict>, seq<byte>)>)
      requires CachesOk()
      modifies this`rcache, this`rncache, this`dicache
      ensures Keeps(old(rcache), old(dicache))
      ensures CachesOk()
      ensures r.Ok? <==> DecodedOf(Document(), c, ref).Ok?
      ensures r.Ok? ==> r.value.0 == DecodedOf(Document(), c, ref).value.0 &&
                        r.value.1 == DecodedOf(Document(), c, ref).value.1
    {
      var st := Stream(ref);
      if st.Panic? {
        return Panic;
      }
      var dic, data := st.value.0, st.value.1;
      var out := Decode(c, dic, data);
      if out.Panic? {
        return Panic;
      }
      return Ok((dic, out.value));
    }

    /** The filter stage of `DecodedStream`, given the stream's dictionary
        and raw data. */
    method Decode(c: Codecs, dic: Option<Dict>, data: seq<byte>) returns (r: Res<seq<byte>>)
      requires CachesOk()
      modifies this`rcache, this`rncache, this`dicache
      ensures Keeps(old(rcache), old(dicache))
      ensures CachesOk()
      ensures r == DecodeOf(Document(), c, dic, data)
    {
      if !Has(dic, FilterKey) {
        return Ok(data);
      }
      var f := ForcedArray(dic.value[FilterKey]);
      if f.Panic? {
        return Panic;
      }
      var filter := OrEmpty(f.value);
      var decos := Decos(dic, |filter|);
      if decos.Panic? {
        return Panic;
      }
      r := RunFilters(c, filter, decos.value, data);
    }

    /** The parameters list of `DecodedStream`. */
    method Decos(dic: Option<Dict>, n: nat) returns (r: Res<seq<seq<byte>>>)
      requires CachesOk()
      modifies this`rcache, this`rncache, this`dicache
      ensures Keeps(old(rcache), old(dicache))
      ensures CachesOk()
      ensures r == DecosOf(Document(), dic, n)
    {
      if !Has(dic, DecodeParamsKey) {
        return Ok(Nils(n));
      }
      var dp := ForcedArray(dic.value[DecodeParamsKey]);
      if dp.Panic? {
        return Panic;
      }
      return Ok(OrEmpty(dp.value));
    }

    /** The loop over the filters of `DecodedStream`. */
    method RunFilters(c: Codecs, filter: seq<seq<byte>>, decos: seq<seq<byte>>, data: seq<byte>) returns (r: Res<seq<byte>>)
      requires CachesOk()
      modifies this`rcache, this`rncache, this`dicache
      ensures Keeps(old(rcache), old(dicache))
      ensures CachesOk()
      ensures r == ApplyFilters(Document(), c, filter, decos, 0, data)
    {
      var cur := data;
      for ff := 0 to |filter|
        invariant CachesOk() && Keeps(old(rcache), old(dicache))
        invariant ApplyFilters(Document(), c, filter, decos, 0, data) == ApplyFilters(Document(), c, filter, decos, ff, cur)
      {
        var next := FilterStep(c, filter, decos, ff, cur);
        if next.Panic? {
          return Panic;
        }
        cur := next.value;
      }
      return Ok(cur);
    }

    /** One turn of the filter loop: filter `ff` with its parameters. */
    method FilterStep(c: Codecs, filter: seq<seq<byte>>, decos: seq<seq<byte>>, ff: nat, data: seq<byte>)
      returns (r: Res<seq<byte>>)
      requires CachesOk() && ff < |filter|
      modifies this`rcache, this`rncache, this`dicache
      ensures Keeps(old(rcache), old(dicache))
      ensures CachesOk()
      ensures r.Panic? ==> ApplyFilters(Document(), c, filter, decos, ff, data).Panic?
      ensures r.Ok? ==> ApplyFilters(Document(), c, filter, decos, ff, data) ==
                        ApplyFilters(Document(), c, filter, decos, ff + 1, r.value)
    {
      if ff >= |decos| {
        return Panic;
      }
      var deco := Dic(decos[ff]);
      if deco.Panic? {
        return Panic;
      }
      r := Filter(c, filter[ff], deco.value, data);
      FiltersUnfold(Document(), c, filter, decos, ff, data, deco.value);
    }

    /** The visit of one reference in the walk of `Pages`: a leaf goes to
        slot `cp` of `buf`; a node with `/Kids` is walked into. Gives the
        next free slot and the references visited; a leaf past the last slot
        panics, as the index into the page slice does. */
    method VisitRef(x: seq<byte>, buf: array<seq<byte>>, cp: nat, done: set<seq<byte>>, ghost a: seq<byte>)
      returns (r: Res<(nat, set<seq<byte>>)>)
      requires CachesOk() && x in Universe(Document(), a) && done <= Universe(Document(), a) && cp <= buf.Length
      modifies this`rcache, this`rncache, this`dicache, buf
      ensures Keeps(old(rcache), old(dicache))
      ensures CachesOk()
      ensures r.Ok? <==> Visit(Document(), a, x, done).Ok? && cp + |Visit(Document(), a, x, done).value.0| <= buf.Length
      ensures r.Ok? ==> r.value.0 == cp + |Visit(Document(), a, x, done).value.0| && r.value.1 == Visit(Document(), a, x, done).value.1 &&
                        Filled(buf[..], old(buf[..]), cp, Visit(Document(), a, x, done).value.0)
      decreases |Universe(Document(), a) - done|, 0, 0
    {
      if x in done {
        return Panic;
      }
      var d := Dic(x);
      if d.Panic? {
        return Panic;
      }
      VisitUnfold(Document(), a, x, done, d.value);
      if Has(d.value, KidsKey) {
        var kids := Arr(d.value.value[KidsKey]);
        if kids.Panic? {
          return Panic;
        }
        r := WalkKids(OrEmpty(kids.value), buf, cp, done + {x}, a);
      } else {
        if cp >= buf.Length {
          return Panic;
        }
        FilledOne(buf[..], cp, x);
        buf[cp] := x;
        r := Ok((cp + 1, done + {x}));
      }
    }

    /** The walk of one `/Kids` list, in order. */
    method WalkKids(p: seq<seq<byte>>, buf: array<seq<byte>>, cp: nat, done: set<seq<byte>>, ghost a: seq<byte>)
      returns (r: Res<(nat, set<seq<byte>>)>)
      requires CachesOk() && (forall i | 0 <= i < |p| :: p[i] in Universe(Document(), a))
      requires done <= Universe(Document(), a) && cp <= buf.Length
      modifies this`rcache, this`rncache, this`dicache, buf
      ensures Keeps(old(rcache), old(dicache))
      ensures CachesOk()
      ensures r.Ok? <==> WalkFrom(Document(), a, p, 0, done).Ok? && cp + |WalkFrom(Document(), a, p, 0, done).value.0| <= buf.Length
      ensures r.Ok? ==> r.value.0 == cp + |WalkFrom(Document(), a, p, 0, done).value.0| && r.value.1 == WalkFrom(Document(), a, p, 0, done).value.1 &&
                        Filled(buf[..], old(buf[..]), cp, WalkFrom(Document(), a, p, 0, done).value.0)
      decreases |Universe(Document(), a) - done|, 2, 0
    {
      ghost var doc := Document();
      ghost var u := Universe(doc, a);
      ghost var start := buf[..];
      var c, dn := cp, done;
      ghost var acc: seq<seq<byte>> := [];
      ghost var w := WalkFrom(doc, a, p, 0, done);
      AheadNone(w);
      FilledNone(start, cp);
      for k := 0 to |p|
        invariant CachesOk() && Keeps(old(rcache), old(dicache))
        invariant done <= dn <= u && c == cp + |acc| <= buf.Length
        invariant Filled(buf[..], start, cp, acc)
        invariant Ahead(w, acc, WalkFrom(doc, a, p, k, dn))
      {
        SubsetCard(u - dn, u - done);
        var step;
        step, acc := KidAt(p, k, buf, c, dn, a, w, cp, acc, start);
        if step.Panic? {
          return Panic;
        }
        c, dn := step.value.0, step.value.1;
      }
      return Ok((c, dn));
    }

    /** The body of the loop of `WalkKids` for the reference `p[k]`: the
        leaves `acc` of `p[..k]` are in the slots from `cp` on; the visit
        of `p[k]` adds its own after them. */
    method KidAt(p: seq<seq<byte>>, k: nat, buf: array<seq<byte>>, c: nat, dn: set<seq<byte>>, ghost a: seq<byte>,
                 ghost w: Res<(seq<seq<byte>>, set<seq<byte>>)>, ghost cp: nat, ghost acc: seq<seq<byte>>, ghost start: seq<seq<byte>>)
      returns (step: Res<(nat, set<seq<byte>>)>, ghost acc': seq<seq<byte>>)
      requires CachesOk() && k < |p| && (forall i | 0 <= i < |p| :: p[i] in Universe(Document(), a))
      requires dn <= Universe(Document(), a) && c == cp + |acc| <= buf.Length
      requires Filled(buf[..], start, cp, acc)
      requires Ahead(w, acc, WalkFrom(Document(), a, p, k, dn))
      modifies this`rcache, this`rncache, this`dicache, buf
      ensures Keeps(old(rcache), old(dicache))
      ensures CachesOk()
      ensures step.Panic? ==>
                !(w.Ok? && cp + |w.value.0| <= buf.Length)
      ensures step.Ok? ==>
                dn <= step.value.1 <= Universe(Document(), a) && step.value.0 == cp + |acc'| <= buf.Length &&
                Filled(buf[..], start, cp, acc') &&
                Ahead(w, acc', WalkFrom(Document(), a, p, k + 1, step.value.1))
      decreases |Universe(Document(), a) - dn|, 1, 0
    {
      ghost var doc := Document();
      WalkStep(doc, a, p, k, dn, acc, w);
      ghost var before := buf[..];
      step := VisitRef(p[k], buf, c, dn, a);
      if step.Panic? {
        acc' := acc;
        return;
      }
      ghost var l1 := Visit(doc, a, p[k], dn).value.0;
      FilledTwice(start, cp, acc, c, l1, before, buf[..]);
      acc' := acc + l1;
    }
  }

  /** The trimming before the ASCII85 decoder: bytes below 33 are dropped
      from the end while more than one byte is left, then a final `~>`. */
  method Trim85(data: seq<byte>) returns (ds: seq<byte>)
    ensures ds == A85Trim(data)
  {
    ds := data;
    while |ds| > 1 && ds[|ds| - 1] < 33
      invariant TrimLow(ds) == TrimLow(data)
    {
      ds := ds[..|ds| - 1];
    }
    if |ds| >= 2 && ds[|ds| - 1] == '>' as byte && ds[|ds| - 2] == '~' as byte {
      ds := ds[..|ds| - 2];
    }
  }

  /** `t` is `s` with the slots from `cp` on overwritten by `l`. */
  ghost predicate Filled<T>(t: seq<T>, s: seq<T>, cp: nat, l: seq<T>)
  {
    |t| == |s| && cp + |l| <= |s| &&
    forall i | 0 <= i < |t| :: t[i] == if cp <= i < cp + |l| then l[i - cp] else s[i]
  }

  lemma FilledNone<T>(s: seq<T>, cp: nat)
    requires cp <= |s|
    ensures Filled(s, s, cp, [])
  {
  }

  /** Filling twice in a row is filling once with both. */
  lemma FilledTwice<T>(s: seq<T>, cp: nat, l1: seq<T>, c: nat, l2: seq<T>, mid: seq<T>, t: seq<T>)
    requires c == cp + |l1| && Filled(mid, s, cp, l1) && Filled(t, mid, c, l2)
    ensures Filled(t, s, cp, l1 + l2)
  {
  }

  /** Writing one slot is filling it with a one-element list. */
  lemma FilledOne<T>(s: seq<T>, cp: nat, x: T)
    requires cp < |s|
    ensures Filled(s[cp := x], s, cp, [x])
  {
  }

  /** Leaves written into a slice of nil slots, followed by the nil slots
      left over. */
  lemma FilledNils(n: nat, l: seq<seq<byte>>, t: seq<seq<byte>>)
    requires Filled(t, Nils(n), 0, l)
    ensures t == l + Nils(n - |l|)
  {
  }

  /** The walk `w` is the leaves `acc` followed by the walk `rest`. */
  ghost predicate Ahead(w: Res<(seq<seq<byte>>, set<seq<byte>>)>, acc: seq<seq<byte>>,
                        rest: Res<(seq<seq<byte>>, set<seq<byte>>)>)
  {
    (w.Ok? <==> rest.Ok?) && (w.Ok? ==> w.value.0 == acc + rest.value.0 && w.value.1 == rest.value.1)
  }

  lemma AheadNone(w: Res<(seq<seq<byte>>, set<seq<byte>>)>)
    ensures Ahead(w, [], w)
  {
    if w.Ok? {
      assert [] + w.value.0 == w.value.0;
    }
  }

  /** One reference further along a `/Kids` list. */
  lemma WalkStep(doc: Doc, a: seq<byte>, p: seq<seq<byte>>, k: nat, dn: set<seq<byte>>, acc: seq<seq<byte>>,
                 w: Res<(seq<seq<byte>>, set<seq<byte>>)>)
    requires k < |p| && (forall i | 0 <= i < |p| :: p[i] in Universe(doc, a)) && dn <= Universe(doc, a)
    requires Ahead(w, acc, WalkFrom(doc, a, p, k, dn))
    ensures Visit(doc, a, p[k], dn).Panic? ==> w.Panic?
    ensures Visit(doc, a, p[k], dn).Ok? ==>
              Ahead(w, acc + Visit(doc, a, p[k], dn).value.0, WalkFrom(doc, a, p, k + 1, Visit(doc, a, p[k], dn).value.1))
  {
    match Visit(doc, a, p[k], dn)
    case Panic =>
    case Ok((l1, d1)) =>
      match WalkFrom(doc, a, p, k + 1, d1)
      case Panic =>
      case Ok((l2, d2)) =>
        assert acc + (l1 + l2) == acc + l1 + l2;
  }

  /** One visit of the page walk, with the dictionary already read. */
  lemma VisitUnfold(doc: Doc, a: seq<byte>, x: seq<byte>, done: set<seq<byte>>, d: Option<Dict>)
    requires x in Universe(doc, a) && done <= Universe(doc, a) && x !in done && DicOf(doc, x) == Ok(d)
    ensures !Has(d, KidsKey) ==> Visit(doc, a, x, done) == Ok(([x], done + {x}))
    ensures Has(d, KidsKey) ==>
              done + {x} <= Universe(doc, a) && |Universe(doc, a) - (done + {x})| < |Universe(doc, a) - done| &&
              match ArrOf(doc, d.value[KidsKey])
              case Panic => Visit(doc, a, x, done) == Panic
              case Ok(kids) =>
                (forall i | 0 <= i < |OrEmpty(kids)| :: OrEmpty(kids)[i] in Universe(doc, a)) &&
                Visit(doc, a, x, done) == WalkFrom(doc, a, OrEmpty(kids), 0, done + {x})
  {
    if Has(d, KidsKey) {
      DicInUniverse(doc, a, x);
      ArrInUniverse(doc, a, d.value[KidsKey]);
      VisitCard(Universe(doc, a), done, done + {x}, x);
    }
  }

  /** One step of the inner resolver, with the object already read. */
  lemma ResolveUnfold(doc: Doc, s: seq<byte>, done: set<nat>, o: nat, n: int, t: seq<byte>)
    requires IsRef(s) && o == NumOf(s) && o !in done && (n, t) == ObjectAt(doc, o)
    ensures t == [] ==> ResolveFrom(doc, s, done) == Panic
    ensures t != [] && !LooksRef(t) ==> ResolveFrom(doc, s, done) == Ok((n, t))
    ensures t != [] && LooksRef(t) ==>
              o in doc.xref && Next(doc, s) == Some(t) && ResolveFrom(doc, s, done) == ResolveFrom(doc, t, done + {o})
  {
  }

  /** A reference that leads on to `t` extends the chain to `t`. */
  lemma FollowLink(doc: Doc, path: seq<seq<byte>>, s: seq<byte>, t: seq<byte>)
    requires Linked(doc, path + [s]) && Next(doc, s) == Some(t)
    ensures Linked(doc, path + [s] + [t])
    ensures Nums(path + [s]) == Nums(path) + {NumOf(s)}
  {
    NumsSnoc(path, s);
    var w := path + [s];
    forall i | 0 <= i < |w + [t]| - 1 ensures Next(doc, (w + [t])[i]) == Some((w + [t])[i + 1]) {
      if i < |w| - 1 {
        assert (w + [t])[i] == w[i] && (w + [t])[i + 1] == w[i + 1];
      }
    }
  }
}
