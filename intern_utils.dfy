/** The list and id helpers of src/lib/internUtils.ts: initials, the comma-list
    normaliser, the list-cell splitter with its separator precedence, and the
    `INT-nnn` id generator. */
module InternUtils {
  import opened Strings
  import opened Types

  // ---------------------------------------------------------------- initials

  function FirstChar(w: string): string {
    if w == [] then "" else [w[0]]
  }

  /** `initials(name)`: the first character of each of the first two
      space-separated words, upper-cased (an empty word contributes nothing). */
  function Initials(name: string): (r: string)
    ensures |r| <= 2
  {
    var words := Split(name, ' ');
    Upper(FirstChar(words[0]) + (if |words| > 1 then FirstChar(words[1]) else ""))
  }

  /** For a name made of words without inner spaces, the initials are the
      upper-cased first letters of its first two words. */
  lemma InitialsOfWords(words: seq<string>)
    requires |words| >= 2
    requires forall i :: 0 <= i < |words| ==> words[i] != [] && ' ' !in words[i]
    ensures Initials(Join(words, " ")) == [UpperChar(words[0][0]), UpperChar(words[1][0])]
  {
    SplitJoin(words, ' ');
    var two := FirstChar(words[0]) + FirstChar(words[1]);
    assert Initials(Join(words, " ")) == Upper(two);
    UpperPair(words[0][0], words[1][0]);
  }

  lemma UpperPair(a: char, b: char)
    ensures Upper([a] + [b]) == [UpperChar(a), UpperChar(b)]
  {
  }

  // ------------------------------------------------------------ list helpers

  /** `.map(v => v.trim()).filter(Boolean)` */
  function TrimItems(parts: seq<string>): (r: seq<string>)
    ensures forall i :: 0 <= i < |r| ==> r[i] != "" && Trimmed(r[i])
    ensures |r| <= |parts|
  {
    if parts == [] then []
    else
      var t := Trim(parts[0]);
      (if t == "" then [] else [t]) + TrimItems(parts[1..])
  }

  /** A character that no part contains is in no item. */
  lemma {:induction false} TrimItemsAvoid(parts: seq<string>, x: char)
    requires forall j :: 0 <= j < |parts| ==> x !in parts[j]
    ensures forall i :: 0 <= i < |TrimItems(parts)| ==> x !in TrimItems(parts)[i]
  {
    if parts != [] {
      TrimAddsNothing(parts[0], x);
      TrimItemsAvoid(parts[1..], x);
    }
  }

  /** Parts made of white space alone give no items. */
  lemma {:induction false} TrimItemsOfSpace(parts: seq<string>)
    requires forall j :: 0 <= j < |parts| ==> AllSpace(parts[j])
    ensures TrimItems(parts) == []
  {
    if parts != [] {
      TrimItemsOfSpace(parts[1..]);
    }
  }

  /** Every piece of a split avoids a character the whole string avoids. */
  lemma SplitAvoid(s: string, c: char, x: char)
    requires x !in s
    ensures forall j :: 0 <= j < |Split(s, c)| ==> x !in Split(s, c)[j]
  {
    SplitChars(s, c);
  }

  /** Every piece of a blank string is blank. */
  lemma SplitOfSpace(s: string, c: char)
    requires AllSpace(s)
    ensures forall j :: 0 <= j < |Split(s, c)| ==> AllSpace(Split(s, c)[j])
  {
    var r := Split(s, c);
    SplitChars(s, c);
    forall j, k | 0 <= j < |r| && 0 <= k < |r[j]| ensures IsSpace(r[j][k]) {
      assert r[j][k] in s;
    }
  }

  /** `normalizeList(value)`: comma-separated items, trimmed, blanks dropped. */
  function NormalizeList(value: string): (r: seq<string>)
    ensures forall i :: 0 <= i < |r| ==> r[i] != "" && Trimmed(r[i]) && ',' !in r[i]
    ensures AllSpace(value) ==> r == []
  {
    var parts := Split(value, ',');
    TrimItemsAvoid(parts, ',');
    assert AllSpace(value) ==> TrimItems(parts) == [] by {
      if AllSpace(value) { SplitOfSpace(value, ','); TrimItemsOfSpace(parts); }
    }
    TrimItems(parts)
  }

  /** `parseListCell(value)`: a blank cell is empty; otherwise the trimmed cell is
      split on `|` if it has one, else on `;` if it has one, else on `,`. */
  function ParseListCell(value: string): (r: seq<string>)
    ensures AllSpace(value) ==> r == []
    ensures forall i :: 0 <= i < |r| ==> r[i] != "" && Trimmed(r[i])
    ensures '|' in Trim(value) ==> forall i :: 0 <= i < |r| ==> '|' !in r[i]
    ensures '|' !in Trim(value) && ';' in Trim(value) ==> forall i :: 0 <= i < |r| ==> ';' !in r[i]
    ensures '|' !in Trim(value) && ';' !in Trim(value) ==> forall i :: 0 <= i < |r| ==> ',' !in r[i]
  {
    var trimmed := Trim(value);
    TrimItemsAvoid(Split(trimmed, '|'), '|');
    TrimItemsAvoid(Split(trimmed, ';'), ';');
    if trimmed == "" then []
    else if '|' in trimmed then TrimItems(Split(trimmed, '|'))
    else if ';' in trimmed then TrimItems(Split(trimmed, ';'))
    else NormalizeList(trimmed)
  }

  // ------------------------------------------------- list-cell round trip

  /** A list the export writes as one cell: its items joined with ` | `. */
  function ListCellText(items: seq<string>): string {
    Join(items, " | ")
  }

  /** The lists that survive export and re-import unchanged: items non-empty,
      trimmed and free of `|`; a single item must also be free of `;` and `,`,
      because a cell without `|` is split on those instead. */
  predicate CellSafeList(items: seq<string>) {
    (forall i :: 0 <= i < |items| ==> items[i] != "" && Trimmed(items[i]) && '|' !in items[i])
    && (|items| == 1 ==> ';' !in items[0] && ',' !in items[0])
  }

  /** The i-th item of a ` | `-joined text with the spaces of its separators. */
  function Padded(items: seq<string>, i: int): string
    requires 0 <= i < |items|
  {
    (if i > 0 then " " else "") + items[i] + (if i < |items| - 1 then " " else "")
  }

  /** Splitting a ` | `-joined text on `|` gives each item padded with the
      spaces of its separators. */
  lemma {:induction false} BarPieces(items: seq<string>)
    requires |items| >= 1
    requires forall i :: 0 <= i < |items| ==> '|' !in items[i]
    ensures |Split(Join(items, " | "), '|')| == |items|
    ensures forall i :: 0 <= i < |items| ==> Split(Join(items, " | "), '|')[i] == Padded(items, i)
    decreases |items|
  {
    if |items| == 1 {
      assert Split(Join(items, " | "), '|') == [items[0]];
      assert "" + items[0] + "" == items[0];
    } else {
      BarPieces(items[1..]);
      BarSplitStep(items);
      PaddedCons(items, Split(Join(items, " | "), '|'), Split(Join(items[1..], " | "), '|'));
    }
  }

  /** The padded pieces of `items` from those of its tail. */
  lemma PaddedCons(items: seq<string>, r: seq<string>, q: seq<string>)
    requires |items| >= 2 && |q| == |items| - 1
    requires forall i :: 0 <= i < |q| ==> q[i] == Padded(items[1..], i)
    requires r == [items[0] + " "] + ([" " + q[0]] + q[1..])
    ensures |r| == |items| && forall i :: 0 <= i < |items| ==> r[i] == Padded(items, i)
  {
    forall i | 0 <= i < |items| ensures r[i] == Padded(items, i) {
      if i == 1 {
        assert q[0] == "" + items[1] + (if 0 < |items| - 2 then " " else "");
      } else if i > 1 {
        assert r[i] == q[i - 1];
        assert items[1..][i - 1] == items[i];
      }
    }
  }

  /** One separator of a ` | `-joined text, split on `|`. */
  lemma BarSplitStep(items: seq<string>)
    requires |items| >= 2 && '|' !in items[0]
    ensures var q := Split(Join(items[1..], " | "), '|');
      Split(Join(items, " | "), '|') == [items[0] + " "] + ([" " + q[0]] + q[1..])
  {
    var j := Join(items[1..], " | ");
    var a := items[0] + " ";
    var x := "|" + (" " + j);
    JoinBarHead(items);
    SplitPrefix(a, x, '|');
    SplitAtBar(j);
    SplitPrefix(" ", j, '|');
    assert a + "" == a;
  }

  lemma JoinBarHead(items: seq<string>)
    requires |items| >= 2
    ensures Join(items, " | ") == (items[0] + " ") + ("|" + (" " + Join(items[1..], " | ")))
  {
  }

  lemma SplitAtBar(j: string)
    ensures Split("|" + (" " + j), '|') == [""] + Split(" " + j, '|')
  {
    var x := "|" + (" " + j);
    assert x[0] == '|' && x[1..] == " " + j;
  }

  lemma {:induction false} TrimItemsExact(parts: seq<string>, items: seq<string>)
    requires |parts| == |items|
    requires forall i :: 0 <= i < |items| ==> items[i] != "" && Trim(parts[i]) == items[i]
    ensures TrimItems(parts) == items
  {
    if parts != [] {
      TrimItemsExact(parts[1..], items[1..]);
      assert items == [items[0]] + items[1..];
    }
  }

  lemma {:induction false} JoinEnds(items: seq<string>, sep: string)
    requires |items| >= 1 && forall i :: 0 <= i < |items| ==> items[i] != []
    ensures var j := Join(items, sep);
      j != [] && j[0] == items[0][0] && j[|j| - 1] == items[|items| - 1][|items[|items| - 1]| - 1]
  {
    if |items| > 1 {
      JoinEnds(items[1..], sep);
    }
  }

  /** Importing an exported list cell gives the list back, for cell-safe lists. */
  lemma ListCellRoundTrip(items: seq<string>)
    requires CellSafeList(items)
    ensures ParseListCell(ListCellText(items)) == items
  {
    var text := ListCellText(items);
    if |items| == 0 {
    } else if |items| == 1 {
      assert text == items[0];
      assert Split(items[0], ',') == [items[0]];
      assert Trim(items[0]) == items[0];
      TrimItemsExact([items[0]], items);
    } else {
      JoinEnds(items, " | ");
      assert Trimmed(text);
      assert text == items[0] + " | " + Join(items[1..], " | ");
      assert text[|items[0]| + 1] == '|';
      BarPieces(items);
      var pieces := Split(text, '|');
      forall i | 0 <= i < |items| ensures Trim(pieces[i]) == items[i] {
        assert pieces[i] == Padded(items, i);
        TrimAround(if i > 0 then " " else "", items[i], if i < |items| - 1 then " " else "");
      }
      TrimItemsExact(pieces, items);
    }
  }

  /** The single-item case the round trip excludes: the one project `a,b` is
      exported as the cell `a,b` and imported as the two projects `a` and `b`. */
  lemma SingleItemWithCommaSplits()
    ensures ListCellText(["a,b"]) == "a,b"
    ensures ParseListCell("a,b") == ["a", "b"]
  {
    TrimABC();
    assert '|' !in "a,b" && ';' !in "a,b";
    NormalizeAB();
  }

  lemma NormalizeAB()
    ensures NormalizeList("a,b") == ["a", "b"]
  {
    TrimABC();
    SplitAB();
    TrimItemsExact(["a", "b"], ["a", "b"]);
  }

  lemma TrimABC()
    ensures Trim("a,b") == "a,b" && Trim("a") == "a" && Trim("b") == "b"
  {
    assert Trimmed("a,b") && Trimmed("a") && Trimmed("b");
  }

  lemma SplitAB()
    ensures Split("a,b", ',') == ["a", "b"]
  {
    assert Split("b", ',') == ["b"];
    assert ",b"[1..] == "b";
    assert Split(",b", ',') == ["", "b"];
    assert "a,b" == ['a'] + ",b";
    SplitCons('a', ",b", ',');
    assert ['a'] + "" == "a";
  }

  // -------------------------------------------------------------- generateId

  /** The run of digits at the start of `s` (the greedy `\d+`). */
  function LeadingDigits(s: string): (r: string)
    ensures AllDigits(r) && IsPrefix(r, s)
    ensures AllDigits(s) ==> r == s
  {
    if s != [] && IsDigit(s[0]) then [s[0]] + LeadingDigits(s[1..]) else ""
  }

  /** The digits captured by the leftmost match of `/INT-(\d+)/` in `s`, if any. */
  function IntSuffix(s: string): (r: Option<string>)
    ensures r.Some? ==> r.value != "" && AllDigits(r.value)
    decreases |s|
  {
    if |s| >= 5 && s[0] == 'I' && s[1] == 'N' && s[2] == 'T' && s[3] == '-' && IsDigit(s[4])
    then Some(LeadingDigits(s[4..]))
    else if s == [] then None
    else IntSuffix(s[1..])
  }

  /** `Number(match[1])`, when the id matches. */
  function SuffixNumber(id: string): Option<nat> {
    match IntSuffix(id)
    case None => None
    case Some(d) => Some(DigitsValue(d))
  }

  /** The `reduce` of `generateId`: the largest matched number, starting at `acc`. */
  function MaxSuffix(interns: seq<Intern>, acc: nat): (m: nat)
    ensures m >= acc
    ensures forall i :: 0 <= i < |interns| && SuffixNumber(interns[i].id).Some? ==>
      SuffixNumber(interns[i].id).value <= m
    ensures m == acc || exists i :: 0 <= i < |interns| && SuffixNumber(interns[i].id) == Some(m)
  {
    if interns == [] then acc
    else
      var step := match SuffixNumber(interns[0].id)
        case None => acc
        case Some(n) => if n > acc then n else acc;
      var m := MaxSuffix(interns[1..], step);
      assert forall i :: 1 <= i < |interns| ==> interns[i] == interns[1..][i - 1];
      m
  }

  /** `INT-` followed by `n` zero-padded to three digits. */
  function IdFor(n: nat): string {
    "INT-" + PadStart(Decimal(n), 3, '0')
  }

  /** The id for `n` reads back as `n`. */
  lemma GeneratedNumber(n: nat)
    ensures IsPrefix("INT-", IdFor(n)) && SuffixNumber(IdFor(n)) == Some(n)
  {
    var dec := Decimal(n);
    var d := PadStart(dec, 3, '0');
    var k := |d| - |dec|;
    LeadingZeros(k, dec);
    DecimalValue(n);
    var r := "INT-" + d;
    assert r[0] == 'I' && r[1] == 'N' && r[2] == 'T' && r[3] == '-' && r[4..] == d;
    assert d[0] == (seq(k, _ => '0') + dec)[0];
    assert IsDigit(r[4]);
  }

  /** The id for `n` is `INT-` and then only digits worth `n`: at least three of
      them, with a leading zero only as padding up to three. */
  lemma IdForShape(n: nat)
    ensures |IdFor(n)| >= 7 && IdFor(n)[..4] == "INT-"
    ensures AllDigits(IdFor(n)[4..]) && DigitsValue(IdFor(n)[4..]) == n
    ensures |IdFor(n)| > 7 ==> IdFor(n)[4] != '0'
  {
    var dec := Decimal(n);
    var d := PadStart(dec, 3, '0');
    var k := |d| - |dec|;
    LeadingZeros(k, dec);
    DecimalValue(n);
    assert IdFor(n)[4..] == d;
    if |IdFor(n)| > 7 {
      assert d == dec;
    }
  }

  /** `generateId(interns)`: `INT-` and one more than the largest matched number,
      zero-padded to three digits; it differs from every existing id. */
  function GenerateId(interns: seq<Intern>): (r: string)
    ensures IsPrefix("INT-", r)
    ensures SuffixNumber(r) == Some(MaxSuffix(interns, 0) + 1)
    ensures forall i :: 0 <= i < |interns| ==> r != interns[i].id
    ensures |r| >= 7 && AllDigits(r[4..]) && DigitsValue(r[4..]) == MaxSuffix(interns, 0) + 1
    ensures |r| > 7 ==> r[4] != '0'
  {
    var next := MaxSuffix(interns, 0) + 1;
    GeneratedNumber(next);
    IdForShape(next);
    GeneratedIsNew(interns, next);
    IdFor(next)
  }

  /** An id whose number exceeds every matched number is none of the existing ids. */
  lemma GeneratedIsNew(interns: seq<Intern>, n: nat)
    requires n > MaxSuffix(interns, 0)
    ensures forall i :: 0 <= i < |interns| ==> IdFor(n) != interns[i].id
  {
    GeneratedNumber(n);
    forall i | 0 <= i < |interns| ensures IdFor(n) != interns[i].id {
      assert SuffixNumber(interns[i].id).Some? ==> SuffixNumber(interns[i].id).value <= MaxSuffix(interns, 0);
    }
  }

}
