/** The hash that doctest's subcase engine (extern/doctest.h) tells paths by. A C string is its
    characters before the terminating zero; a character above 127 counts as a negative one. */
module SubcaseHash {

  import opened Subcases

  const WORD: int := 0x1_0000_0000_0000_0000

  function Signed(c: char): int {
    var b := c as int % 256;
    if b < 128 then b else b - 256
  }

  /** `hash` of two hashes, as far as 64 bits go. */
  function Mix(a: int, b: int): (h: int)
    ensures 0 <= h < WORD
  {
    (32 * a + b) % WORD
  }

  /** djb2 */
  function TextHash(s: string): (h: int)
    ensures 0 <= h < WORD
  {
    if s == "" then 5381 else (33 * TextHash(s[..|s| - 1]) + Signed(s[|s| - 1])) % WORD
  }

  function SignatureHash(sig: Signature): (h: int)
    ensures 0 <= h < WORD
  {
    Mix(Mix(TextHash(sig.file), TextHash(sig.name)), sig.line)
  }

  function PathHash(path: Path): (h: int)
    ensures 0 <= h < WORD
  {
    if path == [] then 0 else Mix(PathHash(path[..|path| - 1]), SignatureHash(path[|path| - 1]))
  }

  /** `hash` of a string: shifts and additions that wrap around. */
  method HashText(str: string) returns (h: int)
    ensures h == TextHash(str)
  {
    h := 5381;
    for i := 0 to |str|
      invariant h == TextHash(str[..i])
    {
      assert str[..i + 1][..i] == str[..i];
      var shifted := 32 * h % WORD;
      var sum := (shifted + h) % WORD;
      Wraps(32 * h, h);
      Wraps(33 * h, Signed(str[i]));
      h := (sum + Signed(str[i])) % WORD;
    }
    assert str[..|str|] == str;
  }

  /** `hash` of the first signatures of a stack. */
  method HashPath(sigs: Path, count: nat) returns (running: int)
    requires count <= |sigs|
    ensures running == PathHash(sigs[..count])
  {
    running := 0;
    for i := 0 to count
      invariant running == PathHash(sigs[..i])
    {
      assert sigs[..i + 1][..i] == sigs[..i];
      var file := HashText(sigs[i].file);
      var name := HashText(sigs[i].name);
      running := Mix(running, Mix(Mix(file, name), sigs[i].line));
    }
  }

  lemma Wraps(x: int, y: int)
    ensures (x % WORD + y) % WORD == (x + y) % WORD
  {
    var q := x / WORD;
    assert x == q * WORD + x % WORD;
    SameRest(x % WORD + y, q);
  }

  lemma SameRest(x: int, q: int)
    ensures (x + q * WORD) % WORD == x % WORD
  {
    var p := x / WORD;
    var r := x % WORD;
    assert x == p * WORD + r;
    assert x + q * WORD == (p + q) * WORD + r;
    RestIs(p + q, r);
  }

  lemma RestIs(q: int, r: int)
    requires 0 <= r < WORD
    ensures (q * WORD + r) % WORD == r
  {
    var x := q * WORD + r;
    assert x == x / WORD * WORD + x % WORD;
  }

  // ---- the hashes as polynomials ----

  ghost function Power(b: int, e: nat): int {
    if e == 0 then 1 else b * Power(b, e - 1)
  }

  /** A byte of a C string as a signed character. */
  ghost predicate SignedByte(c: char, n: int) {
    -128 <= n <= 127 && (n - c as int) % 256 == 0
  }

  /** The characters, each with the power of 33 that its place has. */
  ghost function Weighted(s: string): int {
    if s == "" then 0
    else
      ByteIsSigned(s[0]);
      var n :| SignedByte(s[0], n);
      n * Power(33, |s| - 1) + Weighted(s[1..])
  }

  lemma ByteIsSigned(c: char)
    ensures SignedByte(c, Signed(c)) && forall n :: SignedByte(c, n) ==> n == Signed(c)
  {
  }

  lemma Scale(b: int, x: int, y: int)
    ensures b * (x * y) == x * (b * y)
  {
  }

  lemma {:induction false} OneMoreWeighted(s: string, c: char)
    ensures Weighted(s + [c]) == 33 * Weighted(s) + Signed(c)
  {
    ByteIsSigned(c);
    if s == "" {
      assert s + [c] == [c] && [c][1..] == "";
    } else {
      ByteIsSigned(s[0]);
      OneMoreWeighted(s[1..], c);
      assert (s + [c])[1..] == s[1..] + [c];
      Scale(33, Signed(s[0]), Power(33, |s| - 1));
    }
  }

  /** djb2 is 5381 and the characters, weighted with powers of 33, in 64 bits. */
  lemma {:induction false} TextHashIsPolynomial(s: string)
    ensures TextHash(s) == (5381 * Power(33, |s|) + Weighted(s)) % 0x1_0000_0000_0000_0000
  {
    if s != "" {
      var n := |s| - 1;
      var init, last := s[..n], s[n];
      TextHashIsPolynomial(init);
      OneMoreWeighted(init, last);
      assert s == init + [last];
      Scale(33, 5381, Power(33, n));
      Times(33, 5381 * Power(33, n) + Weighted(init), Signed(last));
    }
  }

  lemma Times(b: int, x: int, y: int)
    ensures (b * (x % WORD) + y) % WORD == (b * x + y) % WORD
  {
    var q := x / WORD;
    assert x == q * WORD + x % WORD;
    SameRest(b * (x % WORD) + y, b * q);
    assert b * x == b * (x % WORD) + b * q * WORD by { Scale(b, q, WORD); Distribute(b, q * WORD, x % WORD); }
  }

  lemma Distribute(b: int, x: int, y: int)
    ensures b * (x + y) == b * x + b * y
  {
  }

  /** A path is hashed from its outermost subcase on: 32 times what is before, plus 1024 times
      the hash of the file, 32 times that of the name, and the line, in 64 bits. */
  lemma PathHashIsSum(path: Path, sig: Signature)
    ensures PathHash([]) == 0
    ensures PathHash(path + [sig])
         == (32 * PathHash(path) + 1024 * TextHash(sig.file) + 32 * TextHash(sig.name) + sig.line) % 0x1_0000_0000_0000_0000
  {
    NextHash(path, sig);
    SignatureHashIsSum(sig);
    assert PathHash([]) == 0;
    hide TextHash, SignatureHash, PathHash;
    AddWraps(32 * PathHash(path), 1024 * TextHash(sig.file) + 32 * TextHash(sig.name) + sig.line);
  }

  lemma NextHash(path: Path, sig: Signature)
    ensures PathHash(path + [sig]) == (32 * PathHash(path) + SignatureHash(sig)) % WORD
  {
    hide SignatureHash;
    assert (path + [sig])[..|path|] == path;
  }

  lemma AddWraps(x: int, y: int)
    ensures (x + y % WORD) % WORD == (x + y) % WORD
  {
    Wraps(y, x);
    assert y % WORD + x == x + y % WORD && y + x == x + y;
  }

  lemma SignatureHashIsSum(sig: Signature)
    ensures SignatureHash(sig) == (1024 * TextHash(sig.file) + 32 * TextHash(sig.name) + sig.line) % WORD
  {
    hide TextHash;
    Times(32, 32 * TextHash(sig.file) + TextHash(sig.name), sig.line);
  }

  lemma SameModulo(x: int, y: int)
    ensures x % WORD == y % WORD <==> (x - y) % WORD == 0
  {
    var p, q := x / WORD, y / WORD;
    assert x == p * WORD + x % WORD && y == q * WORD + y % WORD;
    var d := x % WORD - y % WORD;
    assert x - y == d + (p - q) * WORD;
    SameRest(d, p - q);
    if d < 0 { RestIs(-1, d + WORD); } else { RestIs(0, d); }
  }

  /** A first part that has wrapped around already makes no difference. */
  lemma MixWraps(a: int, b: int)
    ensures Mix(a % WORD, b) == Mix(a, b)
  {
    var q := a / WORD;
    assert a == q * WORD + a % WORD;
    assert 32 * a + b == 32 * (a % WORD) + b + (32 * q) * WORD;
    SameRest(32 * (a % WORD) + b, 32 * q);
  }

  /** Two siblings of one file have the same hash exactly when their names' hashes and lines
      make up for each other. */
  lemma SiblingsCollide(prefix: Path, a: Signature, b: Signature)
    requires a.file == b.file
    ensures PathHash(prefix + [a]) == PathHash(prefix + [b])
       <==> (32 * TextHash(a.name) + a.line - (32 * TextHash(b.name) + b.line)) % WORD == 0
  {
    hide TextHash, Mix;
    assert (prefix + [a])[..|prefix|] == prefix && (prefix + [b])[..|prefix|] == prefix;
    MixSame(PathHash(prefix), SignatureHash(a), SignatureHash(b));
    SignaturesCollide(TextHash(a.file), TextHash(a.name), TextHash(b.name), a.line, b.line);
  }

  lemma MixSame(p: int, x: int, y: int)
    requires 0 <= x < WORD && 0 <= y < WORD
    ensures Mix(p, x) == Mix(p, y) <==> x == y
  {
    SameModulo(32 * p + x, 32 * p + y);
    RestIs(0, x);
    RestIs(0, y);
    SameModulo(x, y);
  }

  lemma SignaturesCollide(f: int, x: int, y: int, k: int, l: int)
    ensures Mix(Mix(f, x), k) == Mix(Mix(f, y), l) <==> (32 * x + k - (32 * y + l)) % WORD == 0
  {
    MixWraps(32 * f + x, k);
    MixWraps(32 * f + y, l);
    SameModulo(32 * (32 * f + x) + k, 32 * (32 * f + y) + l);
  }

  /** `SUBCASE("b")` in line 10 and `SUBCASE("a")` in line 42 of the same file, whatever its
      name: the second one never runs. */
  lemma SubcaseNeverRuns(file: string)
    ensures var b, a := Signature("b", file, 10), Signature("a", file, 42);
            && Leaves([Subcase(b, []), Subcase(a, [])], []) == [[b], [a]]
            && Visited(PathHash, [Subcase(b, []), Subcase(a, [])], {}, 0) == [[b]]
  {
    var b, a := Signature("b", file, 10), Signature("a", file, 42);
    OneLetter('a');
    OneLetter('b');
    SiblingsCollide([], b, a);
    assert [] + [b] == [b] && [] + [a] == [a];
    SecondIsLost(PathHash, b, a);
  }

  lemma OneLetter(c: char)
    requires c as int < 128
    ensures TextHash([c]) == 33 * 5381 + c as int
  {
    assert [c][..0] == "" && TextHash("") == 5381;
  }

  /** With these subcases of one file the test body runs for ever: one of line 1, one of line 2,
      and the first again, each with one subcase of its own. */
  lemma TestNeverEnds(n: nat)
    requires n > 0
    ensures var a, x, b, y := Signature("a", "t", 1), Signature("x", "t", 3), Signature("b", "t", 2), Signature("y", "t", 4);
            var r := AfterRuns(Sandwich(a, x, b, y), PathHash, n);
            r.Some? && r.value.next != []
  {
    var a, x, b, y := Signature("a", "t", 1), Signature("x", "t", 3), Signature("b", "t", 2), Signature("y", "t", 4);
    hide Mix, PathHash, SignatureHash;
    SmallSignature('a', 1);
    SmallSignature('b', 2);
    SmallSignature('x', 3);
    SmallSignature('y', 4);
    PathsOfTwo(a, x);
    PathsOfTwo(b, y);
    NeverEnds(a, x, b, y, PathHash, n);
  }

  lemma SmallSignature(c: char, line: nat)
    requires c as int < 128 && line < 100
    ensures SignatureHash(Signature([c], "t", line)) == 1024 * 177689 + 32 * (177573 + c as int) + line
  {
    OneLetter('t');
    OneLetter(c);
    hide TextHash;
    SmallMix(177689, 177573 + c as int);
    SmallMix(32 * 177689 + 177573 + c as int, line);
  }

  lemma SmallMix(a: int, b: int)
    requires 0 <= a < 0x1_0000_0000_0000 && 0 <= b < 0x1_0000_0000_0000
    ensures Mix(a, b) == 32 * a + b
  {
    RestIs(0, 32 * a + b);
  }

  lemma PathsOfTwo(a: Signature, x: Signature)
    requires SignatureHash(a) < 0x1_0000_0000_0000 && SignatureHash(x) < 0x1_0000_0000_0000
    ensures PathHash([a]) == SignatureHash(a) && PathHash([a, x]) == 32 * SignatureHash(a) + SignatureHash(x)
  {
    hide SignatureHash, Mix;
    assert [a][..0] == [] && [a, x][..1] == [a];
    SmallMix(0, SignatureHash(a));
    SmallMix(SignatureHash(a), SignatureHash(x));
  }
}
