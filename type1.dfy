/** The helpers of the Type 1 font reader: the eexec/charstring cipher, the
    scan that finds where the encrypted part of a font ends, and the lookup
    of a name on the interpreter's dictionary stack. The cipher is the one
    of the Adobe Type 1 Font Format, chapter 7 (Encryption). */
module Type1 {
  import opened Bytes

  /** The start key of the eexec-encrypted part of a font. */
  const EexecKey: int := 55665
  /** The start key of an encrypted charstring. */
  const CharstringKey: int := 4330

  const C1: int := 52845
  const C2: int := 22719

  // ---- The cipher ----

  function Pow2(n: nat): (p: nat)
    ensures p >= 1
  {
    if n == 0 then 1 else 2 * Pow2(n - 1)
  }

  /** Bitwise exclusive or of the low `n` bits of `a` and `b`, lowest bit
      first. */
  function XorBits(a: nat, b: nat, n: nat): (x: nat)
    ensures x < Pow2(n)
  {
    if n == 0 then 0
    else (if a % 2 == b % 2 then 0 else 1) + 2 * XorBits(a / 2, b / 2, n - 1)
  }

  /** Go's `^` on two bytes. */
  function Xor(a: byte, b: byte): byte
  {
    XorBits(a as nat, b as nat, 8) as byte
  }

  lemma {:induction false} XorBitsTwice(a: nat, b: nat, n: nat)
    requires a < Pow2(n)
    ensures XorBits(XorBits(a, b, n), b, n) == a
  {
    if n > 0 {
      var x := XorBits(a, b, n);
      var r := XorBits(a / 2, b / 2, n - 1);
      assert x % 2 == (if a % 2 == b % 2 then 0 else 1) && x / 2 == r;
      XorBitsTwice(a / 2, b / 2, n - 1);
    }
  }

  /** Xoring twice with the same byte gives the byte back. */
  lemma XorTwice(a: byte, h: byte)
    ensures Xor(Xor(a, h), h) == a
  {
    assert Pow2(8) == 256;
    XorBitsTwice(a as nat, h as nat, 8);
  }

  /** `byte(r >> 8)`: the shift floors, the conversion keeps the low 8 bits. */
  function High(r: int): byte
  {
    ((r / 256) % 256) as byte
  }

  /** The key after one cipher byte `c`: `((r + c) * 52845 + 22719) & 65535`. */
  function Next(r: int, c: byte): (k: int)
    ensures 0 <= k < 65536
  {
    ((r + c as int) * C1 + C2) % 65536
  }

  /** The key after the cipher bytes `s`, starting from `r`. */
  function Key(r: int, s: seq<byte>): (k: int)
    ensures s != [] ==> 0 <= k < 65536
  {
    if s == [] then r else Next(Key(r, s[..|s| - 1]), s[|s| - 1])
  }

  /** What `T1Decrypt(r, s)` returns: each byte is the cipher byte xored
      with the high byte of the key in force before it. */
  function Decrypt(r: int, s: seq<byte>): (p: seq<byte>)
    ensures |p| == |s|
  {
    if s == [] then []
    else
      var u := s[..|s| - 1];
      Decrypt(r, u) + [Xor(s[|s| - 1], High(Key(r, u)))]
  }

  /** `T1Decrypt`: fills a buffer as long as `s`, one byte per step, and
      updates the key from the cipher byte. */
  method T1Decrypt(r: int, s: seq<byte>) returns (p: seq<byte>)
    ensures p == Decrypt(r, s)
  {
    var buf := new byte[|s|];
    var key := r;
    var k := 0;
    while k < |s|
      invariant 0 <= k <= |s|
      invariant buf[..k] == Decrypt(r, s[..k])
      invariant key == Key(r, s[..k])
    {
      assert s[..k + 1][..k] == s[..k];
      buf[k] := Xor(s[k], High(key));
      key := Next(key, s[k]);
      k := k + 1;
    }
    assert s[..k] == s;
    p := buf[..];
  }

  /** Byte `i` of the plain text depends on the cipher bytes before it only
      through the key. */
  lemma {:induction false} DecryptAt(r: int, s: seq<byte>, i: nat)
    requires i < |s|
    ensures Decrypt(r, s)[i] == Xor(s[i], High(Key(r, s[..i])))
    decreases |s|
  {
    var u := s[..|s| - 1];
    if i < |s| - 1 {
      DecryptAt(r, u, i);
      assert u[..i] == s[..i];
    } else {
      assert u == s[..i];
    }
  }

  /** Decrypting a prefix gives the prefix of the plain text. */
  lemma {:induction false} DecryptPrefix(r: int, s: seq<byte>, n: nat)
    requires n <= |s|
    ensures Decrypt(r, s[..n]) == Decrypt(r, s)[..n]
    decreases |s|
  {
    if n < |s| {
      var u := s[..|s| - 1];
      DecryptPrefix(r, u, n);
      assert u[..n] == s[..n];
      assert Decrypt(r, s)[..|s| - 1] == Decrypt(r, u);
    } else {
      assert s[..n] == s;
    }
  }

  /** The encryption the cipher undoes: each cipher byte is the plain byte
      xored with the key's high byte, and the key moves on with the cipher
      byte. */
  function Encrypt(r: int, p: seq<byte>): (c: seq<byte>)
    ensures |c| == |p|
  {
    if p == [] then []
    else
      var e := Encrypt(r, p[..|p| - 1]);
      e + [Xor(p[|p| - 1], High(Key(r, e)))]
  }

  /** Decryption undoes encryption. */
  lemma {:induction false} DecryptEncrypt(r: int, p: seq<byte>)
    ensures Decrypt(r, Encrypt(r, p)) == p
  {
    if p != [] {
      var u := p[..|p| - 1];
      var e := Encrypt(r, u);
      var c := Encrypt(r, p);
      DecryptEncrypt(r, u);
      assert c[..|c| - 1] == e;
      XorTwice(p[|p| - 1], High(Key(r, e)));
      assert p == u + [p[|p| - 1]];
    }
  }

  /** Encryption undoes decryption: every byte string is a cipher text. */
  lemma {:induction false} EncryptDecrypt(r: int, c: seq<byte>)
    ensures Encrypt(r, Decrypt(r, c)) == c
  {
    if c != [] {
      var u := c[..|c| - 1];
      var d := Decrypt(r, c);
      EncryptDecrypt(r, u);
      assert d[..|d| - 1] == Decrypt(r, u);
      XorTwice(c[|c| - 1], High(Key(r, u)));
      assert c == u + [c[|c| - 1]];
    }
  }

  /** The first byte of an eexec section is xored with 0xD9, the high byte
      of 55665. */
  lemma EexecFirstByte(s: seq<byte>)
    requires |s| >= 1
    ensures Decrypt(EexecKey, s)[0] == Xor(s[0], 217)
  {
    DecryptAt(EexecKey, s, 0);
    assert s[..0] == [] && Key(EexecKey, []) == EexecKey;
    assert EexecKey / 256 == 217 && 217 % 256 == 217;
  }

  // ---- The eexec section ----

  /** The bytes the scan skips without counting. */
  predicate Blank(b: byte)
  {
    b == 32 || b == 10 || b == 13 || b == 9
  }

  const ZeroDigit: byte := 48

  /** A byte that ends the encrypted text found so far. */
  predicate Significant(b: byte)
  {
    !Blank(b) && b != ZeroDigit
  }

  /** The number of '0' bytes in `t`. */
  function ZeroCount(t: seq<byte>): (n: nat)
    ensures n <= |t|
  {
    if t == [] then 0
    else ZeroCount(t[..|t| - 1]) + (if t[|t| - 1] == ZeroDigit then 1 else 0)
  }

  /** The scan loop of `eexec` from byte `k` on, with `cnt` zeros counted
      since the end `pos` of the text so far: it stops at the end of the data
      or once 256 zeros are counted. Result: (pos, k, cnt) at the stop. */
  function Run(b: seq<byte>, k: nat, cnt: nat, pos: nat): (o: (nat, nat, nat))
    requires pos <= k <= |b|
    ensures o.0 <= o.1 <= |b|
    decreases |b| - k
  {
    if cnt < 256 && k < |b| then
      if Blank(b[k]) then Run(b, k + 1, cnt, pos)
      else if b[k] == ZeroDigit then Run(b, k + 1, cnt + 1, pos)
      else Run(b, k + 1, 0, k + 1)
    else (pos, k, cnt)
  }

  function ScanOf(b: seq<byte>): (o: (nat, nat, nat))
    ensures o.0 <= o.1 <= |b|
  {
    Run(b, 0, 0, 0)
  }

  /** One past the last significant byte of `t`, or 0 when there is none. */
  function LastEnd(t: seq<byte>): (e: nat)
    ensures e <= |t|
    ensures e == 0 || Significant(t[e - 1])
    ensures forall i | e <= i < |t| :: !Significant(t[i])
  {
    if t == [] then 0
    else if Significant(t[|t| - 1]) then |t|
    else LastEnd(t[..|t| - 1])
  }

  /** The zeros counted after the first `j` bytes: those since the last
      significant byte. */
  function Since(b: seq<byte>, j: nat): nat
    requires j <= |b|
  {
    ZeroCount(b[LastEnd(b[..j])..j])
  }

  /** The stop of the scan, stated outright: `k` is the first position at
      which 256 zeros have been counted since the last significant byte, or
      the end of the data; the text ends after the last significant byte
      before `k`, and `cnt` counts the zeros after it. */
  ghost predicate ScanSpec(b: seq<byte>, pos: nat, k: nat, cnt: nat)
  {
    k <= |b| && pos == LastEnd(b[..k]) && cnt == Since(b, k) &&
    (k == |b| || cnt == 256) &&
    (forall j | 0 <= j < k :: Since(b, j) < 256)
  }

  /** The state of the loop before byte `k`. */
  ghost predicate ScanSoFar(b: seq<byte>, pos: nat, k: nat, cnt: nat)
  {
    k <= |b| && pos == LastEnd(b[..k]) && cnt == Since(b, k) && cnt <= 256 &&
    (forall j | 0 <= j < k :: Since(b, j) < 256)
  }

  lemma ScanStep(b: seq<byte>, pos: nat, k: nat, cnt: nat)
    requires ScanSoFar(b, pos, k, cnt) && cnt < 256 && k < |b|
    ensures Blank(b[k]) ==> ScanSoFar(b, pos, k + 1, cnt)
    ensures b[k] == ZeroDigit ==> ScanSoFar(b, pos, k + 1, cnt + 1)
    ensures Significant(b[k]) ==> ScanSoFar(b, k + 1, k + 1, 0)
  {
    assert b[..k + 1][..k] == b[..k];
    assert b[pos..k + 1][..k - pos] == b[pos..k];
    assert b[k + 1..k + 1] == [];
  }

  lemma {:induction false} RunMeetsSpec(b: seq<byte>, k: nat, cnt: nat, pos: nat)
    requires ScanSoFar(b, pos, k, cnt)
    ensures var o := Run(b, k, cnt, pos); ScanSpec(b, o.0, o.1, o.2)
    decreases |b| - k
  {
    if cnt < 256 && k < |b| {
      ScanStep(b, pos, k, cnt);
      if Blank(b[k]) {
        RunMeetsSpec(b, k + 1, cnt, pos);
      } else if b[k] == ZeroDigit {
        RunMeetsSpec(b, k + 1, cnt + 1, pos);
      } else {
        RunMeetsSpec(b, k + 1, 0, k + 1);
      }
    }
  }

  /** The scan meets its statement. */
  lemma ScanMeetsSpec(b: seq<byte>)
    ensures var o := ScanOf(b); ScanSpec(b, o.0, o.1, o.2)
  {
    assert b[..0] == [] && b[0..0] == [];
    RunMeetsSpec(b, 0, 0, 0);
  }

  /** The statement fixes the stop: any two stops that meet it are equal. */
  lemma ScanUnique(b: seq<byte>, p1: nat, k1: nat, c1: nat, p2: nat, k2: nat, c2: nat)
    requires ScanSpec(b, p1, k1, c1) && ScanSpec(b, p2, k2, c2)
    ensures p1 == p2 && k1 == k2 && c1 == c2
  {
  }

  /** The scan loop of `eexec`. */
  method ZeroRun(b: seq<byte>) returns (pos: nat, k: nat, cnt: nat)
    ensures (pos, k, cnt) == ScanOf(b)
  {
    pos, k, cnt := 0, 0, 0;
    while cnt < 256 && k < |b|
      invariant pos <= k <= |b|
      invariant Run(b, k, cnt, pos) == ScanOf(b)
      decreases |b| - k
    {
      if Blank(b[k]) {
      } else if b[k] == ZeroDigit {
        cnt := cnt + 1;
      } else {
        cnt := 0;
        pos := k + 1;
      }
      k := k + 1;
    }
  }

  /** The end of `eexec` for the scanned text `t`: hex text is decoded
      first (`t[0]` panics on an empty text), and the four random bytes that
      start the plain text are dropped (a slice that panics when fewer
      remain). */
  function FinishOf(t: seq<byte>, isHex: byte -> bool, hexDecode: seq<byte> -> seq<byte>): Res<seq<byte>>
  {
    if t == [] then Panic
    else
      var c := if isHex(t[0]) then hexDecode(t) else t;
      if |c| < 4 then Panic else Ok(Decrypt(EexecKey, c)[4..])
  }

  /** `eexec` on the bytes `b` that remain in the reader: the decrypted
      section, and the number of bytes the reader is moved past. The hex
      test and decoder belong to another package and are parameters. */
  function EexecOf(b: seq<byte>, isHex: byte -> bool, hexDecode: seq<byte> -> seq<byte>): (Res<seq<byte>>, nat)
  {
    var o := ScanOf(b);
    (FinishOf(b[..o.0], isHex, hexDecode), o.1)
  }

  method Eexec(b: seq<byte>, isHex: byte -> bool, hexDecode: seq<byte> -> seq<byte>)
    returns (r: Res<seq<byte>>, consumed: nat)
    ensures (r, consumed) == EexecOf(b, isHex, hexDecode)
  {
    var pos, k, cnt := ZeroRun(b);
    var t := b[..pos];
    if |t| == 0 {
      return Panic, k;
    }
    if isHex(t[0]) {
      t := hexDecode(t);
    }
    var p := T1Decrypt(EexecKey, t);
    if |p| < 4 {
      return Panic, k;
    }
    return Ok(p[4..]), k;
  }

  /** What `eexec` yields: the plain text of the section after its first
      four bytes, where the section ends after the last significant byte
      the scan saw; it panics exactly when that text is empty or decodes to
      fewer than four bytes. */
  lemma EexecDrops(b: seq<byte>, isHex: byte -> bool, hexDecode: seq<byte> -> seq<byte>)
    ensures var o := ScanOf(b);
            var t := b[..o.0];
            var c := if t != [] && isHex(t[0]) then hexDecode(t) else t;
            ScanSpec(b, o.0, o.1, o.2) &&
            (EexecOf(b, isHex, hexDecode).0.Ok? <==> t != [] && |c| >= 4) &&
            (EexecOf(b, isHex, hexDecode).0.Ok? ==>
               Decrypt(EexecKey, c) == Decrypt(EexecKey, c[..4]) + EexecOf(b, isHex, hexDecode).0.value)
  {
    ScanMeetsSpec(b);
    var o := ScanOf(b);
    var t := b[..o.0];
    var c := if t != [] && isHex(t[0]) then hexDecode(t) else t;
    if t != [] && |c| >= 4 {
      DecryptPrefix(EexecKey, c, 4);
      var d := Decrypt(EexecKey, c);
      assert d == d[..4] + d[4..];
    }
  }

  // ---- The dictionary stack ----

  /** A PostScript dictionary of the interpreter: its definitions by name. */
  datatype Dic = Dic(defs: map<seq<byte>, seq<byte>>, name: seq<byte>)

  /** `find` from stack index `k` down: the first dictionary that defines
      `key` gives its definition; a missing slot (nil pointer, or an index
      past the stack array) panics; below index 0, nothing is found. */
  function FindOf(dicSt: seq<Option<Dic>>, k: int, key: seq<byte>): Res<Option<seq<byte>>>
    decreases k + 1
  {
    if k < 0 then Ok(None)
    else if k >= |dicSt| || dicSt[k].None? then Panic
    else if key in dicSt[k].value.defs then Ok(Some(dicSt[k].value.defs[key]))
    else FindOf(dicSt, k - 1, key)
  }

  /** `find(i, s)` over the dictionary stack `dicSt` with top index `dicSp`. */
  method Find(dicSt: seq<Option<Dic>>, dicSp: int, key: seq<byte>) returns (r: Res<Option<seq<byte>>>)
    ensures r == FindOf(dicSt, dicSp, key)
  {
    var k := dicSp;
    var found: Option<seq<byte>> := None;
    while k >= 0 && found.None?
      invariant k <= dicSp
      invariant found.None? ==> FindOf(dicSt, k, key) == FindOf(dicSt, dicSp, key)
      invariant found.Some? ==> Ok(found) == FindOf(dicSt, dicSp, key)
      decreases k + 1
    {
      if k >= |dicSt| || dicSt[k].None? {
        return Panic;
      }
      var d := dicSt[k].value;
      if key in d.defs {
        found := Some(d.defs[key]);
      }
      k := k - 1;
    }
    return Ok(found);
  }

  /** A dictionary at stack index `j` that is present and does not define
      `key`. */
  predicate Passes(dicSt: seq<Option<Dic>>, j: int, key: seq<byte>)
  {
    0 <= j < |dicSt| && dicSt[j].Some? && key !in dicSt[j].value.defs
  }

  /** A stack slot `find` cannot look into: past the array, or nil. */
  predicate Missing(dicSt: seq<Option<Dic>>, k: int)
  {
    k >= |dicSt| || (0 <= k && dicSt[k].None?)
  }

  /** A found definition comes from the topmost dictionary that defines the
      name. */
  lemma {:induction false} FindTopmost(dicSt: seq<Option<Dic>>, sp: int, key: seq<byte>, v: seq<byte>)
    requires FindOf(dicSt, sp, key) == Ok(Some(v))
    ensures exists k | 0 <= k <= sp ::
              k < |dicSt| && dicSt[k].Some? && key in dicSt[k].value.defs &&
              dicSt[k].value.defs[key] == v &&
              forall j | k < j <= sp :: Passes(dicSt, j, key)
    decreases sp + 1
  {
    if key in dicSt[sp].value.defs {
      assert dicSt[sp].value.defs[key] == v;
    } else {
      FindTopmost(dicSt, sp - 1, key, v);
      var k :| 0 <= k <= sp - 1 && k < |dicSt| && dicSt[k].Some? && key in dicSt[k].value.defs &&
                dicSt[k].value.defs[key] == v && forall j | k < j <= sp - 1 :: Passes(dicSt, j, key);
      assert Passes(dicSt, sp, key);
    }
  }

  /** Nothing is found exactly when every dictionary from the top down to
      index 0 is present and none defines the name. */
  lemma {:induction false} FindMissing(dicSt: seq<Option<Dic>>, sp: int, key: seq<byte>)
    ensures FindOf(dicSt, sp, key) == Ok(None) <==> forall j | 0 <= j <= sp :: Passes(dicSt, j, key)
    decreases sp + 1
  {
    if sp >= 0 {
      FindMissing(dicSt, sp - 1, key);
      if FindOf(dicSt, sp, key) == Ok(None) {
        assert Passes(dicSt, sp, key);
      }
      if forall j | 0 <= j <= sp :: Passes(dicSt, j, key) {
        assert Passes(dicSt, sp, key);
      }
    }
  }

  /** A panic means the walk reached a missing dictionary before any
      dictionary that defines the name. */
  lemma {:induction false} FindPanics(dicSt: seq<Option<Dic>>, sp: int, key: seq<byte>)
    requires FindOf(dicSt, sp, key) == Panic
    ensures exists k | 0 <= k <= sp ::
              Missing(dicSt, k) && forall j | k < j <= sp :: Passes(dicSt, j, key)
    decreases sp + 1
  {
    if sp < |dicSt| && dicSt[sp].Some? {
      FindPanics(dicSt, sp - 1, key);
      var k :| 0 <= k <= sp - 1 && Missing(dicSt, k) &&
                forall j | k < j <= sp - 1 :: Passes(dicSt, j, key);
      assert Passes(dicSt, sp, key);
    } else {
      assert Missing(dicSt, sp);
    }
  }
}
