/** The C library calls the programs lean on, as functions on byte sequences:
    C strings, basename, "%lu" printing and atoi. */
module CLib {
  import opened Bytes

  const INT_MAX: int := 0x7fff_ffff

  // ---- C strings

  /** The C string held by a buffer: the bytes before its first NUL. */
  function CStr(s: seq<byte>): (c: seq<byte>)
    ensures c <= s && 0 !in c
  {
    if s == [] || s[0] == 0 then [] else [s[0]] + CStr(s[1..])
  }

  lemma {:induction false} CStrStopsAtNul(c: seq<byte>, rest: seq<byte>)
    requires 0 !in c
    ensures CStr(c + [0] + rest) == c
    ensures CStr(c) == c
  {
    if c != [] {
      CStrStopsAtNul(c[1..], rest);
      assert (c + [0] + rest)[1..] == c[1..] + [0] + rest;
    }
  }

  /** What dst holds after strcpy(dst, src): src, its NUL, and dst's old bytes beyond. */
  function StrCpy(dst: seq<byte>, src: seq<byte>): (r: seq<byte>)
    requires |src| < |dst|
    ensures |r| == |dst|
  {
    src + [0] + dst[|src| + 1..]
  }

  // ---- basename, as POSIX defines it

  const SLASH: byte := 47
  const DOT: byte := 46

  function StripSlashes(path: seq<byte>): (p: seq<byte>)
    ensures p <= path
    ensures p != [] ==> p[|p| - 1] != SLASH
  {
    if path != [] && path[|path| - 1] == SLASH then StripSlashes(path[..|path| - 1]) else path
  }

  function AfterLastSlash(path: seq<byte>): seq<byte> {
    if path == [] || path[|path| - 1] == SLASH then []
    else AfterLastSlash(path[..|path| - 1]) + [path[|path| - 1]]
  }

  lemma {:induction false} EndsAfterLastSlash(path: seq<byte>)
    ensures var p := AfterLastSlash(path);
      && |p| <= |path| && p == path[|path| - |p|..] && SLASH !in p
      && (|p| < |path| ==> path[|path| - |p| - 1] == SLASH)
  {
    if path != [] && path[|path| - 1] != SLASH {
      EndsAfterLastSlash(path[..|path| - 1]);
    }
  }

  function Basename(path: seq<byte>): seq<byte> {
    var p := StripSlashes(path);
    if path == [] then [DOT] else if p == [] then [SLASH] else AfterLastSlash(p)
  }

  lemma BasenameFits(path: seq<byte>)
    ensures |Basename(path)| <= if path == [] then 1 else |path|
  {
    EndsAfterLastSlash(StripSlashes(path));
  }

  /** The last component of a path is what follows its last slash, trailing slashes aside. */
  lemma BasenameIsLastComponent(dir: seq<byte>, leaf: seq<byte>, slashes: nat)
    requires leaf != [] && 47 !in leaf
    requires dir == [] || dir[|dir| - 1] == 47
    ensures Basename(dir + leaf + seq(slashes, _ => 47)) == leaf
  {
    assert leaf[|leaf| - 1] in leaf;
    StripTrailing(dir + leaf, slashes);
    LeafAfterLastSlash(dir, leaf);
  }

  lemma {:induction false} LeafAfterLastSlash(dir: seq<byte>, leaf: seq<byte>)
    requires SLASH !in leaf
    requires dir == [] || dir[|dir| - 1] == SLASH
    ensures AfterLastSlash(dir + leaf) == leaf
  {
    if leaf == [] {
      assert dir + leaf == dir;
    } else {
      var last := |leaf| - 1;
      LeafAfterLastSlash(dir, leaf[..last]);
      assert leaf[last] in leaf && leaf == leaf[..last] + [leaf[last]];
      AppendAssociative(dir, leaf[..last], [leaf[last]]);
      AfterOneMore(dir + leaf[..last], leaf[last]);
    }
  }

  lemma AfterOneMore(path: seq<byte>, c: byte)
    requires c != SLASH
    ensures AfterLastSlash(path + [c]) == AfterLastSlash(path) + [c]
  {
    var longer := path + [c];
    assert longer != [] && longer[|longer| - 1] == c && longer[..|longer| - 1] == path;
  }

  /** Paths without a component: the empty path names the directory itself, slashes the root. */
  lemma {:induction false} BasenameOfSlashes(slashes: nat)
    ensures StripSlashes(seq(slashes, _ => SLASH)) == []
    ensures Basename(seq(slashes, _ => 47)) == if slashes == 0 then [46] else [47]
  {
    var s := seq(slashes, _ => SLASH);
    if slashes > 0 {
      BasenameOfSlashes(slashes - 1);
      assert s[..slashes - 1] == seq(slashes - 1, _ => SLASH);
    }
  }

  lemma {:induction false} StripTrailing(p: seq<byte>, slashes: nat)
    requires p != [] && p[|p| - 1] != SLASH
    ensures StripSlashes(p + seq(slashes, _ => SLASH)) == p
  {
    var s := p + seq(slashes, _ => SLASH);
    if slashes > 0 {
      StripTrailing(p, slashes - 1);
      assert s[..|s| - 1] == p + seq(slashes - 1, _ => SLASH);
    } else {
      assert s == p;
    }
  }

  // ---- Decimal numbers

  predicate IsDigit(c: byte) {
    48 <= c <= 57
  }

  predicate IsSpace(c: byte) {
    c == 32 || 9 <= c <= 13
  }

  /** printf's "%lu". */
  function Decimal(n: nat): (s: seq<byte>)
    ensures |s| > 0 && (forall c :: c in s ==> IsDigit(c))
  {
    if n < 10 then [(48 + n) as byte] else Decimal(n / 10) + [(48 + n % 10) as byte]
  }

  function Pow10(k: nat): (p: nat)
    ensures p > 0
  {
    if k == 0 then 1 else 10 * Pow10(k - 1)
  }

  lemma {:induction false} DecimalLength(n: nat, k: nat)
    requires k > 0
    ensures |Decimal(n)| <= k <==> n < Pow10(k)
  {
    if k == 1 {
      assert Pow10(1) == 10;
    } else if n >= 10 {
      DecimalLength(n / 10, k - 1);
    }
  }

  /** strtol's digits: None when the run of digits reaches the end of the buffer unterminated. */
  function ParseDigits(s: seq<byte>, acc: nat): Option<nat> {
    if s == [] then None
    else if IsDigit(s[0]) then ParseDigits(s[1..], 10 * acc + (s[0] - 48) as nat)
    else Some(acc)
  }

  /** atoi: blanks, a sign, digits. None where C leaves it undefined: a number that runs off
      the buffer or does not fit an int. */
  function Atoi(s: seq<byte>): Option<int> {
    if s == [] then None
    else if IsSpace(s[0]) then Atoi(s[1..])
    else
      var negative := s[0] == 45;
      match ParseDigits(if negative || s[0] == 43 then s[1..] else s, 0)
      case None => None
      case Some(magnitude) =>
        var v: int := if negative then -(magnitude as int) else magnitude;
        if -INT_MAX - 1 <= v <= INT_MAX then Some(v) else None
  }

  // ---- Which digits, and what they are worth

  predicate Digits(s: seq<byte>) {
    forall i :: 0 <= i < |s| ==> 48 <= s[i] <= 57
  }

  /** The positional value of digits, each weighing ten to the number of digits behind it. */
  function Value(digits: seq<byte>): nat
    requires Digits(digits)
  {
    if digits == [] then 0 else (digits[0] - 48) as nat * Pow10(|digits| - 1) + Value(digits[1..])
  }

  lemma DivideTwice(n: nat, p: nat)
    requires p > 0
    ensures n / 10 / p == n / (10 * p)
  {
    var m := n / 10;
    var q, r := m / p, m % p;
    assert m == p * q + r && n == 10 * m + n % 10;
    TenTimes(p, q);
    QuotientIs(n, 10 * p, q, 10 * r + n % 10);
  }

  lemma TenTimes(p: nat, q: nat)
    ensures (10 * p) * q == 10 * (p * q)
  {
  }

  lemma QuotientIs(n: nat, p: nat, q: nat, r: nat)
    requires n == p * q + r && r < p
    ensures n / p == q
  {
    var m, t := n / p, n % p;
    assert n == p * m + t;
    assert p * (m - q) == p * m - p * q;
    SmallMultiple(p, m - q);
  }

  lemma SmallMultiple(p: int, d: int)
    requires -p < p * d < p
    ensures d == 0
  {
  }

  /** What is printed at each position: the digit of that power of ten. */
  lemma {:induction false} DecimalIsPositional(n: nat, i: nat)
    requires i < |Decimal(n)|
    ensures Decimal(n)[i] as int == 48 + n / Pow10(|Decimal(n)| - 1 - i) % 10
  {
    if i < |Decimal(n)| - 1 {
      DecimalIsPositional(n / 10, i);
      DivideTwice(n, Pow10(|Decimal(n / 10)| - 1 - i));
    }
  }

  lemma DecimalPositions(n: nat)
    ensures forall i :: 0 <= i < |Decimal(n)| ==> Decimal(n)[i] as int == 48 + n / Pow10(|Decimal(n)| - 1 - i) % 10
  {
    forall i | 0 <= i < |Decimal(n)| ensures Decimal(n)[i] as int == 48 + n / Pow10(|Decimal(n)| - 1 - i) % 10 {
      DecimalIsPositional(n, i);
    }
  }

  /** Only digits are printed, worth the number together, and no zero stands in front. */
  lemma {:induction false} DecimalIsWorth(n: nat)
    ensures Digits(Decimal(n)) && Value(Decimal(n)) == n
    ensures Decimal(n)[0] == 48 <==> n == 0
  {
    var s := Decimal(n);
    forall i | 0 <= i < |s| ensures 48 <= s[i] <= 57 {
      assert s[i] in s;
    }
    if n >= 10 {
      DecimalIsWorth(n / 10);
      ValueOfMore(Decimal(n / 10), s[|s| - 1]);
    }
  }

  lemma Horner(acc: nat, d: nat, p: nat)
    ensures (10 * acc + d) * p == acc * (10 * p) + d * p
    ensures 10 * (d * p) == d * (10 * p)
  {
  }

  lemma {:induction false} ValueOfMore(digits: seq<byte>, c: byte)
    requires Digits(digits) && 48 <= c <= 57
    ensures Value(digits + [c]) == 10 * Value(digits) + (c - 48) as nat
  {
    var more := digits + [c];
    if digits == [] {
      assert more[1..] == [];
    } else {
      ValueOfMore(digits[1..], c);
      assert more[1..] == digits[1..] + [c];
      Horner(0, (digits[0] - 48) as nat, Pow10(|digits| - 1));
    }
  }

  /** strtol reads the value of every run of digits, whatever stands in front of it or behind. */
  lemma {:induction false} ParseOfDigits(digits: seq<byte>, rest: seq<byte>, acc: nat)
    requires Digits(digits)
    ensures ParseDigits(digits + rest, acc) == ParseDigits(rest, acc * Pow10(|digits|) + Value(digits))
  {
    if digits == [] {
      assert digits + rest == rest;
    } else {
      ParseOfDigits(digits[1..], rest, 10 * acc + (digits[0] - 48) as nat);
      assert (digits + rest)[1..] == digits[1..] + rest;
      Horner(acc, (digits[0] - 48) as nat, Pow10(|digits| - 1));
    }
  }

  lemma ParseDecimal(n: nat, rest: seq<byte>)
    ensures ParseDigits(Decimal(n) + rest, 0) == ParseDigits(rest, n)
  {
    DecimalIsWorth(n);
    ParseOfDigits(Decimal(n), rest, 0);
  }

  /** atoi undoes "%lu" for every number that fits an int, whatever follows a non-digit. */
  lemma AtoiOfDecimal(n: nat, rest: seq<byte>)
    requires rest != [] && !(48 <= rest[0] <= 57)
    ensures ParseDigits(Decimal(n) + rest, 0) == Some(n)
    ensures Atoi(Decimal(n) + rest) == if n <= 0x7fff_ffff then Some(n) else None
  {
    ParseDecimal(n, rest);
    DecimalIsWorth(n);
  }

  predicate Blanks(s: seq<byte>) {
    forall i :: 0 <= i < |s| ==> s[i] == 32 || 9 <= s[i] <= 13
  }

  /** Blanks, an optional sign and any digits, and what they are worth; a run of no digits is
      worth 0. */
  predicate Numeral(blanks: seq<byte>, sign: seq<byte>, digits: seq<byte>) {
    Blanks(blanks) && sign in {[], [43], [45]} && Digits(digits)
  }

  /** atoi skips blanks, takes an optional sign and reads the digits up to the first other
      character, leading zeros included; it is undefined exactly beyond the ints. */
  lemma {:induction false} AtoiOfSigned(blanks: seq<byte>, sign: seq<byte>, digits: seq<byte>, rest: seq<byte>)
    requires Numeral(blanks, sign, digits) && rest != [] && !(48 <= rest[0] <= 57)
    requires sign + digits == [] ==> rest[0] != 43 && rest[0] != 45 && !Blanks([rest[0]])
    ensures var v: int := if sign == [45] then -(Value(digits) as int) else Value(digits);
      Atoi(blanks + (sign + (digits + rest))) == if -0x8000_0000 <= v <= 0x7fff_ffff then Some(v) else None
  {
    var signed := sign + (digits + rest);
    if blanks == [] {
      ParseOfDigits(digits, rest, 0);
      assert blanks + signed == signed;
      assert sign == [] ==> signed == digits + rest;
      assert sign != [] ==> signed[1..] == digits + rest;
      assert sign == [] && digits == [] ==> Blanks([rest[0]]) == IsSpace(rest[0]);
    } else {
      AtoiOfSigned(blanks[1..], sign, digits, rest);
      assert (blanks + signed)[1..] == blanks[1..] + signed;
    }
  }

  /** Without a terminator atoi runs off the buffer. */
  lemma {:induction false} AtoiRunsOff(blanks: seq<byte>, sign: seq<byte>, digits: seq<byte>)
    requires Numeral(blanks, sign, digits)
    ensures Atoi(blanks + (sign + digits)) == None
  {
    var signed := sign + digits;
    if blanks == [] {
      ParseOfDigits(digits, [], 0);
      assert blanks + signed == signed && digits + [] == digits;
      assert sign == [] ==> signed == digits;
      assert sign != [] ==> signed[1..] == digits;
    } else {
      AtoiRunsOff(blanks[1..], sign, digits);
      assert (blanks + signed)[1..] == blanks[1..] + signed;
    }
  }

  lemma {:induction false} ParseStopsAtNul(s: seq<byte>, rest: seq<byte>, acc: nat)
    ensures ParseDigits(s + [0] + rest, acc) == ParseDigits(s + [0], acc)
  {
    if s != [] {
      ParseStopsAtNul(s[1..], rest, 10 * acc + if IsDigit(s[0]) then (s[0] - 48) as nat else 0);
      assert (s + [0] + rest)[1..] == s[1..] + [0] + rest && (s + [0])[1..] == s[1..] + [0];
    }
  }

  /** atoi looks at a C string only up to its NUL. */
  lemma {:induction false} AtoiStopsAtNul(s: seq<byte>, rest: seq<byte>)
    ensures Atoi(s + [0] + rest) == Atoi(s + [0])
  {
    ParseStopsAtNul(s, rest, 0);
    if s != [] {
      assert (s + [0] + rest)[1..] == s[1..] + [0] + rest && (s + [0])[1..] == s[1..] + [0];
      ParseStopsAtNul(s[1..], rest, 0);
      AtoiStopsAtNul(s[1..], rest);
    }
  }
}
