/** The JavaScript string built-ins the directory code relies on, on `seq<char>`:
    trim, split on one character, join, includes, ASCII case mapping, padStart,
    decimal digits, and the code-point order standing in for `Array.prototype.sort`'s. */
module Strings {

  /** White space as `String.prototype.trim` and the regular-expression class `\s`
      see it: the WhiteSpace and LineTerminator code points of ECMAScript. */
  predicate IsSpace(c: char) {
    ('\t' <= c <= '\r') || c == ' ' || c == '\U{A0}' || c == '\U{1680}' || ('\U{2000}' <= c <= '\U{200A}')
    || c == '\U{2028}' || c == '\U{2029}' || c == '\U{202F}' || c == '\U{205F}' || c == '\U{3000}'
    || c == '\U{FEFF}'
  }

  predicate AllSpace(s: string) {
    forall i :: 0 <= i < |s| ==> IsSpace(s[i])
  }

  /** No white space at either end: what `trim` leaves unchanged. */
  predicate Trimmed(s: string) {
    s == [] || (!IsSpace(s[0]) && !IsSpace(s[|s| - 1]))
  }

  function TrimStart(s: string): (r: string)
    ensures r == [] || !IsSpace(r[0])
    ensures |r| <= |s|
  {
    if s != [] && IsSpace(s[0]) then TrimStart(s[1..]) else s
  }

  function TrimEnd(s: string): (r: string)
    ensures r == [] || !IsSpace(r[|r| - 1])
    ensures |r| <= |s|
  {
    if s != [] && IsSpace(s[|s| - 1]) then TrimEnd(s[..|s| - 1]) else s
  }

  /** `trimStart` drops a run of white space and keeps the rest. */
  lemma {:induction false} TrimStartSuffix(s: string)
    ensures TrimStart(s) == s[|s| - |TrimStart(s)|..]
    ensures forall i :: 0 <= i < |s| - |TrimStart(s)| ==> IsSpace(s[i])
    decreases |s|
  {
    if s != [] && IsSpace(s[0]) {
      TrimStartSuffix(s[1..]);
    }
  }

  /** `trimEnd` keeps a prefix and drops a run of white space. */
  lemma {:induction false} TrimEndPrefix(s: string)
    ensures TrimEnd(s) == s[..|TrimEnd(s)|]
    ensures forall i :: |TrimEnd(s)| <= i < |s| ==> IsSpace(s[i])
    decreases |s|
  {
    if s != [] && IsSpace(s[|s| - 1]) {
      TrimEndPrefix(s[..|s| - 1]);
    }
  }

  /** `s.trim()`: drops white space at both ends and keeps the middle. */
  function Trim(s: string): (r: string)
    ensures Trimmed(r)
    ensures |r| <= |s|
    ensures r == [] <==> AllSpace(s)
    ensures Trimmed(s) ==> r == s
  {
    var t := TrimStart(s);
    var r := TrimEnd(t);
    TrimStartSuffix(s);
    TrimEndPrefix(t);
    assert AllSpace(s) ==> t == [] by {
      if t != [] { assert t[0] == s[|s| - |t|]; }
    }
    assert t == [] ==> AllSpace(s);
    assert t != [] ==> r != [];
    r
  }

  /** `trim` adds no character. */
  lemma TrimAddsNothing(s: string, c: char)
    requires c !in s
    ensures c !in Trim(s)
  {
    var t := TrimStart(s);
    TrimStartSuffix(s);
    SliceAvoids(s, |s| - |t|, |s|, c);
    TrimEndPrefix(t);
    SliceAvoids(t, 0, |TrimEnd(t)|, c);
  }

  /** A slice holds no character its sequence does not. */
  lemma SliceAvoids(s: string, i: nat, j: nat, c: char)
    requires i <= j <= |s| && c !in s
    ensures c !in s[i..j]
  {
    assert forall k :: 0 <= k < j - i ==> s[i..j][k] == s[i + k];
  }

  /** White space around a trimmed, non-empty core is exactly what `trim` removes. */
  lemma {:induction false} TrimAround(a: string, x: string, b: string)
    requires AllSpace(a) && AllSpace(b)
    requires x != [] && Trimmed(x)
    ensures Trim(a + x + b) == x
  {
    TrimStartAround(a, x + b);
    assert a + x + b == a + (x + b);
    TrimEndAround(x, b);
  }

  lemma {:induction false} TrimStartAround(a: string, y: string)
    requires AllSpace(a)
    requires y != [] && !IsSpace(y[0])
    ensures TrimStart(a + y) == y
    decreases |a|
  {
    if a == [] {
      assert a + y == y;
    } else {
      var s := a + y;
      assert s[0] == a[0] && IsSpace(s[0]);
      assert s[1..] == a[1..] + y;
      assert TrimStart(s) == TrimStart(s[1..]);
      TrimStartAround(a[1..], y);
    }
  }

  lemma {:induction false} TrimEndAround(x: string, b: string)
    requires AllSpace(b)
    requires x != [] && !IsSpace(x[|x| - 1])
    ensures TrimEnd(x + b) == x
    decreases |b|
  {
    if b == [] {
      assert x + b == x;
    } else {
      assert (x + b)[..|x + b| - 1] == x + b[..|b| - 1];
      TrimEndAround(x, b[..|b| - 1]);
    }
  }

  /** Joining the pieces of a split puts the separators back. */
  lemma {:induction false} JoinSplit(s: string, c: char)
    ensures Join(Split(s, c), [c]) == s
    decreases |s|
  {
    if s != [] {
      JoinSplit(s[1..], c);
      if s[0] == c {
        JoinSplitSep(s, c);
      } else {
        JoinSplitOther(s, c);
      }
    }
  }

  lemma JoinSplitSep(s: string, c: char)
    requires s != [] && s[0] == c
    requires Join(Split(s[1..], c), [c]) == s[1..]
    ensures Join(Split(s, c), [c]) == s
  {
    var rest := Split(s[1..], c);
    var r := [""] + rest;
    assert Split(s, c) == r;
    assert r[1..] == rest;
    assert Join(r, [c]) == "" + [c] + Join(rest, [c]);
    assert s == [c] + s[1..];
  }

  lemma JoinSplitOther(s: string, c: char)
    requires s != [] && s[0] != c
    requires Join(Split(s[1..], c), [c]) == s[1..]
    ensures Join(Split(s, c), [c]) == s
  {
    var rest := Split(s[1..], c);
    var head := [s[0]] + rest[0];
    assert Split(s, c) == [head] + rest[1..];
    assert s == [s[0]] + s[1..];
    if |rest| == 1 {
      JoinSplitOne(s[0], rest[0], rest, c);
    } else {
      JoinSplitMany(s[0], rest, c);
    }
  }

  lemma JoinSplitOne(a: char, r0: string, rest: seq<string>, c: char)
    requires rest == [r0]
    ensures Join([[a] + r0] + rest[1..], [c]) == [a] + Join(rest, [c])
  {
    assert [[a] + r0] + rest[1..] == [[a] + r0];
  }

  lemma JoinSplitMany(a: char, rest: seq<string>, c: char)
    requires |rest| > 1
    ensures Join([[a] + rest[0]] + rest[1..], [c]) == [a] + Join(rest, [c])
  {
    JoinCons([a] + rest[0], rest[1..], [c]);
    assert rest == [rest[0]] + rest[1..];
    JoinCons(rest[0], rest[1..], [c]);
  }

  lemma JoinCons(p: string, ps: seq<string>, sep: string)
    requires ps != []
    ensures Join([p] + ps, sep) == p + sep + Join(ps, sep)
  {
    assert ([p] + ps)[1..] == ps;
  }

  /** `s.includes(c)` for one character. */
  predicate Has(s: string, c: char) {
    c in s
  }

  /** `s.startsWith(p)`. */
  predicate IsPrefix(p: string, s: string) {
    |p| <= |s| && s[..|p|] == p
  }

  /** `s.includes(q)` for a string `q`: `q` occurs at some position of `s`. */
  predicate Contains(s: string, q: string)
    decreases |s|
  {
    IsPrefix(q, s) || (s != [] && Contains(s[1..], q))
  }

  lemma ContainsEmpty(s: string)
    ensures Contains(s, "")
  {
  }

  lemma ContainsInEmpty(q: string)
    requires Contains("", q)
    ensures q == ""
  {
  }

  /** `fields.some(value => value.toLowerCase().includes(q))`. */
  predicate SomeContains(fields: seq<string>, q: string) {
    exists i :: 0 <= i < |fields| && Contains(Lower(fields[i]), q)
  }

  /** `q` occurs in `s` starting at position `k`. */
  predicate OccursAt(s: string, q: string, k: int) {
    0 <= k <= |s| - |q| && s[k..k + |q|] == q
  }

  /** The recursive `Contains` agrees with "occurs at some position". */
  lemma {:induction false} ContainsAt(s: string, q: string)
    ensures Contains(s, q) <==> exists k :: OccursAt(s, q, k)
    decreases |s|
  {
    if IsPrefix(q, s) {
      assert OccursAt(s, q, 0);
    } else if s == [] {
    } else {
      ContainsAt(s[1..], q);
      if exists k :: OccursAt(s, q, k) {
        var k :| OccursAt(s, q, k);
        assert k != 0;
        assert s[1..][k - 1..k - 1 + |q|] == s[k..k + |q|];
        assert OccursAt(s[1..], q, k - 1);
      }
      if Contains(s[1..], q) {
        var k :| OccursAt(s[1..], q, k);
        assert s[k + 1..k + 1 + |q|] == s[1..][k..k + |q|];
        assert OccursAt(s, q, k + 1);
      }
    }
  }

  /** `s.split(c)`: the pieces between occurrences of `c`; always at least one piece. */
  function Split(s: string, c: char): (r: seq<string>)
    ensures |r| >= 1
    ensures forall i :: 0 <= i < |r| ==> c !in r[i]
    ensures c !in s ==> r == [s]
  {
    if s == [] then [""]
    else
      var rest := Split(s[1..], c);
      if s[0] == c then [""] + rest
      else
        assert c !in s ==> [s[0]] + s[1..] == s;
        [[s[0]] + rest[0]] + rest[1..]
  }

  /** Every character of a piece comes from the split string. */
  lemma {:induction false} SplitChars(s: string, c: char)
    ensures forall i, ch :: 0 <= i < |Split(s, c)| && ch in Split(s, c)[i] ==> ch in s
    decreases |s|
  {
    if s != [] {
      SplitChars(s[1..], c);
      assert forall ch :: ch in s[1..] ==> ch in s;
    }
  }

  /** `parts.join(sep)`. */
  function Join(parts: seq<string>, sep: string): (r: string)
  {
    if parts == [] then ""
    else if |parts| == 1 then parts[0]
    else parts[0] + sep + Join(parts[1..], sep)
  }

  /** Splitting recovers the pieces that were joined with a one-character separator. */
  lemma {:induction false} SplitJoin(parts: seq<string>, c: char)
    requires |parts| >= 1
    requires forall i :: 0 <= i < |parts| ==> c !in parts[i]
    ensures Split(Join(parts, [c]), c) == parts
    decreases |parts|
  {
    if |parts| > 1 {
      var j := Join(parts[1..], [c]);
      SplitJoin(parts[1..], c);
      var x := [c] + j;
      assert x[1..] == j;
      assert Split(x, c) == [""] + parts[1..];
      SplitPrefix(parts[0], x, c);
      assert Join(parts, [c]) == parts[0] + x;
      assert parts[0] + "" == parts[0];
      assert ([""] + parts[1..])[1..] == parts[1..];
      assert [parts[0]] + parts[1..] == parts;
    }
  }

  lemma SplitCons(a: char, s: string, c: char)
    requires a != c
    ensures Split([a] + s, c) == [[a] + Split(s, c)[0]] + Split(s, c)[1..]
  {
    assert ([a] + s)[1..] == s;
  }

  /** A separator-free prefix sticks to the first piece. */
  lemma {:induction false} SplitPrefix(p: string, s: string, c: char)
    requires c !in p
    ensures Split(p + s, c) == [p + Split(s, c)[0]] + Split(s, c)[1..]
    decreases |p|
  {
    if p == [] {
      var ss := Split(s, c);
      assert p + s == s;
      assert p + ss[0] == ss[0];
      assert [ss[0]] + ss[1..] == ss;
    } else {
      var t := p[1..];
      SplitPrefix(t, s, c);
      assert p == [p[0]] + t;
      SplitPrefixStep(p[0], t, s, c);
    }
  }

  lemma SplitPrefixStep(a: char, t: string, s: string, c: char)
    requires a != c
    requires Split(t + s, c) == [t + Split(s, c)[0]] + Split(s, c)[1..]
    ensures Split([a] + t + s, c) == [[a] + t + Split(s, c)[0]] + Split(s, c)[1..]
  {
    var ss := Split(s, c);
    var r := Split(t + s, c);
    assert r[0] == t + ss[0] && r[1..] == ss[1..];
    ConsAssoc(a, t, s);
    ConsAssoc(a, t, ss[0]);
    SplitCons(a, t + s, c);
  }

  lemma ConsAssoc(a: char, t: string, u: string)
    ensures [a] + (t + u) == [a] + t + u
  {
  }

  lemma Assoc<T>(x: seq<T>, y: seq<T>, z: seq<T>)
    ensures x + (y + z) == x + y + z
  {
  }

  lemma SplitConsSep(s: string, c: char)
    ensures Split([c] + s, c) == [""] + Split(s, c)
  {
    assert ([c] + s)[1..] == s;
  }

  /** Appending the separator opens a new, empty last piece. */
  lemma {:induction false} SplitSnocSep(t: string, c: char)
    ensures Split(t + [c], c) == Split(t, c) + [""]
    decreases |t|
  {
    if t == [] {
      assert t + [c] == [c] + [];
      SplitConsSep([], c);
    } else {
      var u := t[1..];
      assert t == [t[0]] + u;
      SplitSnocSep(u, c);
      SplitSnocSepStep(t[0], u, c);
    }
  }

  lemma SplitSnocSepStep(a: char, u: string, c: char)
    requires Split(u + [c], c) == Split(u, c) + [""]
    ensures Split([a] + u + [c], c) == Split([a] + u, c) + [""]
  {
    Assoc([a], u, [c]);
    if a == c {
      SplitConsSep(u + [c], c);
      SplitConsSep(u, c);
      Assoc([""], Split(u, c), [""]);
    } else {
      SplitCons(a, u + [c], c);
      SplitCons(a, u, c);
      HeadSnoc([a], Split(u, c), Split(u + [c], c), "");
    }
  }

  /** Prefixing the first piece commutes with appending a piece. */
  lemma HeadSnoc(h: string, r: seq<string>, r2: seq<string>, z: string)
    requires |r| >= 1 && r2 == r + [z]
    ensures [h + r2[0]] + r2[1..] == [h + r[0]] + r[1..] + [z]
  {
    assert r2[1..] == r[1..] + [z];
  }

  /** Appending any other character extends the last piece. */
  lemma {:induction false} SplitSnocOther(t: string, x: char, c: char)
    requires x != c
    ensures var p := Split(t, c);
      Split(t + [x], c) == p[..|p| - 1] + [p[|p| - 1] + [x]]
    decreases |t|
  {
    if t == [] {
      assert t + [x] == [x] + [];
      SplitCons(x, [], c);
    } else {
      var u := t[1..];
      assert t == [t[0]] + u;
      SplitSnocOther(u, x, c);
      SplitSnocOtherStep(t[0], u, x, c);
    }
  }

  lemma SplitSnocOtherStep(a: char, u: string, x: char, c: char)
    requires x != c
    requires var p := Split(u, c); Split(u + [x], c) == p[..|p| - 1] + [p[|p| - 1] + [x]]
    ensures var p := Split([a] + u, c); Split([a] + u + [x], c) == p[..|p| - 1] + [p[|p| - 1] + [x]]
  {
    Assoc([a], u, [x]);
    if a == c {
      SplitConsSep(u + [x], c);
      SplitConsSep(u, c);
      ConsExtendLast("", Split(u, c), Split(u + [x], c), x);
    } else {
      SplitCons(a, u + [x], c);
      SplitCons(a, u, c);
      HeadExtendLast([a], Split(u, c), Split(u + [x], c), x);
    }
  }

  /** A piece put in front leaves the last piece to be extended. */
  lemma ConsExtendLast(h: string, r: seq<string>, r2: seq<string>, x: char)
    requires |r| >= 1 && r2 == r[..|r| - 1] + [r[|r| - 1] + [x]]
    ensures var p := [h] + r; [h] + r2 == p[..|p| - 1] + [p[|p| - 1] + [x]]
  {
    var p := [h] + r;
    assert p[..|p| - 1] == [h] + r[..|r| - 1];
  }

  /** Prefixing the first piece commutes with extending the last one. */
  lemma HeadExtendLast(h: string, r: seq<string>, r2: seq<string>, x: char)
    requires |r| >= 1 && r2 == r[..|r| - 1] + [r[|r| - 1] + [x]]
    ensures var p := [h + r[0]] + r[1..]; [h + r2[0]] + r2[1..] == p[..|p| - 1] + [p[|p| - 1] + [x]]
  {
    var p := [h + r[0]] + r[1..];
    if |r| == 1 {
      assert r2 == [r[0] + [x]];
      assert h + (r[0] + [x]) == h + r[0] + [x];
    } else {
      assert r2[0] == r[0] && r2[1..] == r[1..|r| - 1] + [r[|r| - 1] + [x]];
      assert p[..|p| - 1] == [h + r[0]] + r[1..|r| - 1];
    }
  }

  /** ASCII `toLowerCase` / `toUpperCase`. */
  function LowerChar(c: char): char {
    if 'A' <= c <= 'Z' then (c as int + 32) as char else c
  }

  function UpperChar(c: char): char {
    if 'a' <= c <= 'z' then (c as int - 32) as char else c
  }

  function Lower(s: string): (r: string)
    ensures |r| == |s|
    ensures forall i :: 0 <= i < |s| ==> r[i] == LowerChar(s[i])
  {
    seq(|s|, i requires 0 <= i < |s| => LowerChar(s[i]))
  }

  function Upper(s: string): (r: string)
    ensures |r| == |s|
    ensures forall i :: 0 <= i < |s| ==> r[i] == UpperChar(s[i])
  {
    seq(|s|, i requires 0 <= i < |s| => UpperChar(s[i]))
  }

  /** `String(s).padStart(width, fill)`. */
  function PadStart(s: string, width: nat, fill: char): (r: string)
    ensures |r| == if |s| >= width then |s| else width
    ensures r == seq(|r| - |s|, _ => fill) + s
  {
    if |s| >= width then s else seq(width - |s|, _ => fill) + s
  }

  predicate IsDigit(c: char) {
    '0' <= c <= '9'
  }

  predicate AllDigits(s: string) {
    forall i :: 0 <= i < |s| ==> IsDigit(s[i])
  }

  /** `String(n)` for a natural number. */
  function Decimal(n: nat): (r: string)
    ensures |r| >= 1 && AllDigits(r)
    ensures n > 0 ==> r[0] != '0'
    decreases n
  {
    if n < 10 then [('0' as int + n) as char]
    else Decimal(n / 10) + [('0' as int + n % 10) as char]
  }

  /** The value of a string of decimal digits, read left to right (`Number(s)` on digits). */
  function DigitsValue(s: string): (v: nat)
    requires AllDigits(s)
    decreases |s|
  {
    if s == [] then 0
    else DigitsValue(s[..|s| - 1]) * 10 + (s[|s| - 1] as int - '0' as int)
  }

  lemma {:induction false} DecimalValue(n: nat)
    ensures DigitsValue(Decimal(n)) == n
    decreases n
  {
    if n >= 10 {
      DecimalValue(n / 10);
      var d := Decimal(n);
      assert d[..|d| - 1] == Decimal(n / 10);
    }
  }

  /** Leading zeros do not change a digit string's value. */
  lemma {:induction false} LeadingZeros(k: nat, s: string)
    requires AllDigits(s)
    ensures AllDigits(seq(k, _ => '0') + s)
    ensures DigitsValue(seq(k, _ => '0') + s) == DigitsValue(s)
    decreases |s|
  {
    var z := seq(k, _ => '0');
    if s == [] {
      assert z + s == z;
      ZerosValue(k);
    } else {
      LeadingZeros(k, s[..|s| - 1]);
      assert (z + s)[..|z + s| - 1] == z + s[..|s| - 1];
    }
  }

  lemma {:induction false} ZerosValue(k: nat)
    ensures AllDigits(seq(k, _ => '0'))
    ensures DigitsValue(seq(k, _ => '0')) == 0
    decreases k
  {
    if k > 0 {
      ZerosValue(k - 1);
      assert seq(k, _ => '0')[..k - 1] == seq(k - 1, _ => '0');
    }
  }

  /** Strict lexicographic order on code points (Dafny characters are Unicode scalar
      values): the order of the default `Array.prototype.sort` on text without
      characters above U+FFFF, and the total order this model uses for `localeCompare`
      and for `ORDER BY id`. */
  predicate LexLess(a: string, b: string)
    decreases |a|
  {
    if a == [] then b != []
    else if b == [] then false
    else if a[0] != b[0] then a[0] < b[0]
    else LexLess(a[1..], b[1..])
  }

  lemma {:induction false} LexIrreflexive(a: string)
    ensures !LexLess(a, a)
    decreases |a|
  {
    if a != [] { LexIrreflexive(a[1..]); }
  }

  lemma {:induction false} LexAsymmetric(a: string, b: string)
    ensures LexLess(a, b) ==> !LexLess(b, a)
    decreases |a|
  {
    if a != [] && b != [] && a[0] == b[0] { LexAsymmetric(a[1..], b[1..]); }
  }

  lemma {:induction false} LexTransitive(a: string, b: string, c: string)
    requires LexLess(a, b) && LexLess(b, c)
    ensures LexLess(a, c)
    decreases |a|
  {
    if a != [] && a[0] == b[0] && b[0] == c[0] {
      LexTransitive(a[1..], b[1..], c[1..]);
    }
  }

  lemma {:induction false} LexTotal(a: string, b: string)
    ensures a == b || LexLess(a, b) || LexLess(b, a)
    decreases |a|
  {
    if a != [] && b != [] && a[0] == b[0] {
      LexTotal(a[1..], b[1..]);
      if a[1..] == b[1..] { assert a == [a[0]] + a[1..]; assert b == [b[0]] + b[1..]; }
    }
  }

  /** `a.localeCompare(b)` as a sign: negative, zero or positive. */
  function LexCompare(a: string, b: string): (r: int)
    ensures r == 0 <==> a == b
    ensures r < 0 <==> LexLess(a, b)
    ensures r > 0 <==> LexLess(b, a)
  {
    LexIrreflexive(a);
    LexAsymmetric(a, b);
    LexTotal(a, b);
    if LexLess(a, b) then -1 else if a == b then 0 else 1
  }
}
