/** The store boundary of the API (api/_db.ts): the conversion of a table row to
    the record the API returns, the text-array literal the seed insert sends, the
    `ID`-prefixed id format and the parse of the largest id number, and the seeding
    policy over the `interns` table, which is held as a map from id to row. */
module Db {
  import opened Types
  import opened Strings

  /** A row of the `interns` table as the driver returns it: nullable columns are
      options; `start_date` is the stored date text. */
  datatype DbRow = DbRow(
    id: string,
    name: string,
    role: string,
    email: string,
    phone: Option<string>,
    imageUrl: Option<string>,
    projects: Option<seq<string>>,
    manager: Option<string>,
    startDate: Option<string>,
    performance: Option<string>,
    skills: Option<seq<string>>,
    department: Option<string>)

  // ------------------------------------------------------------------ toIntern

  /** `toIntern(row)`. The `Date` round trip of `start_date` is the parameter
      `isoDay`: the `YYYY-MM-DD` text the driver's date turns into. */
  function ToIntern(row: DbRow, isoDay: string -> string): (x: Intern)
    ensures x.id == row.id && x.name == row.name && x.role == row.role && x.email == row.email
    ensures x.phone == OrElse(row.phone, "") && x.imageUrl == OrElse(row.imageUrl, "")
    ensures x.manager == OrElse(row.manager, "") && x.performance == OrElse(row.performance, "")
    ensures x.department == OrElse(row.department, "")
    ensures x.projects == OrElse(row.projects, []) && x.skills == OrElse(row.skills, [])
    ensures !Truthy(row.startDate) ==> x.startDate == ""
    ensures Truthy(row.startDate) ==> x.startDate == isoDay(row.startDate.value)
  {
    Intern(row.id, row.name, row.role, row.email, OrElse(row.phone, ""), OrElse(row.imageUrl, ""),
           OrElse(row.projects, []), OrElse(row.manager, ""),
           if Truthy(row.startDate) then isoDay(row.startDate.value) else "",
           OrElse(row.performance, ""), OrElse(row.skills, []), OrElse(row.department, ""))
  }

  /** `value || null`: an empty text is stored as SQL NULL. */
  function NullIfEmpty(s: string): (o: Option<string>)
    ensures o == None <==> s == ""
    ensures o.Some? ==> o.value == s
  {
    if s == "" then None else Some(s)
  }

  /** A date text that reads back as itself: empty, or already in the form `isoDay` gives. */
  predicate CanonicalDate(d: string, isoDay: string -> string) {
    d == "" || isoDay(d) == d
  }

  // -------------------------------------------------- PostgreSQL text arrays

  /** `s.replace(/c/g, rep)` for a one-character pattern. */
  function ReplaceAll(s: string, c: char, rep: string): (r: string)
    ensures c in r ==> c in rep
    ensures c !in s ==> r == s
    decreases |s|
  {
    if s == [] then []
    else (if s[0] == c then rep else [s[0]]) + ReplaceAll(s[1..], c, rep)
  }

  /** `escapeArrayItem(value)`: backslashes are doubled first, then quotes escaped. */
  function EscapeArrayItem(value: string): (r: string)
    ensures '"' !in value && '\\' !in value ==> r == value
  {
    ReplaceAll(ReplaceAll(value, '\\', "\\\\"), '"', "\\\"")
  }

  /** One character as an array element needs it inside quotes: `\` and `"` behind a
      backslash, anything else as it is (section 8.15.6 of the PostgreSQL manual). */
  function EscapeChar(c: char): (r: string)
    ensures |r| >= 1 && r[|r| - 1] == c
    ensures |r| == 2 <==> c == '\\' || c == '"'
    ensures |r| == 2 ==> r[0] == '\\'
  {
    if c == '\\' || c == '"' then ['\\', c] else [c]
  }

  /** The escape in one pass over the characters. */
  function Escaped(s: string): string
    decreases |s|
  {
    if s == [] then [] else EscapeChar(s[0]) + Escaped(s[1..])
  }

  lemma {:induction false} ReplaceAllAppend(s: string, t: string, c: char, rep: string)
    ensures ReplaceAll(s + t, c, rep) == ReplaceAll(s, c, rep) + ReplaceAll(t, c, rep)
    decreases |s|
  {
    if s != [] {
      ReplaceAllAppend(s[1..], t, c, rep);
      var h := if s[0] == c then rep else [s[0]];
      assert (s + t)[1..] == s[1..] + t;
      assert ReplaceAll(s + t, c, rep) == h + ReplaceAll(s[1..] + t, c, rep);
      assert ReplaceAll(s, c, rep) == h + ReplaceAll(s[1..], c, rep);
      Assoc(h, ReplaceAll(s[1..], c, rep), ReplaceAll(t, c, rep));
    } else {
      assert s + t == t;
    }
  }

  /** The two `replace` calls escape each `\` as `\\` and each `"` as `\"` and leave
      every other character alone: the second call never revisits what the first wrote. */
  lemma {:induction false} EscapeInOnePass(s: string)
    ensures EscapeArrayItem(s) == Escaped(s)
    decreases |s|
  {
    if s != [] {
      EscapeInOnePass(s[1..]);
      var head := if s[0] == '\\' then "\\\\" else [s[0]];
      assert ReplaceAll(s, '\\', "\\\\") == head + ReplaceAll(s[1..], '\\', "\\\\");
      ReplaceAllAppend(head, ReplaceAll(s[1..], '\\', "\\\\"), '"', "\\\"");
      if s[0] == '\\' {
        assert ReplaceAll(head, '"', "\\\"") == "\\\\";
      } else if s[0] == '"' {
        assert ReplaceAll(head, '"', "\\\"") == "\\\"";
      } else {
        assert ReplaceAll(head, '"', "\\\"") == [s[0]];
      }
    }
  }

  /** `"${escapeArrayItem(item)}"` */
  function QuotedItem(item: string): string {
    "\"" + EscapeArrayItem(item) + "\""
  }

  function QuotedItems(items: seq<string>): (r: seq<string>)
    ensures |r| == |items| && forall i :: 0 <= i < |items| ==> r[i] == QuotedItem(items[i])
  {
    seq(|items|, i requires 0 <= i < |items| => QuotedItem(items[i]))
  }

  /** `toTextArrayLiteral(value)`: the quoted, escaped items between braces, in order. */
  function ToTextArrayLiteral(value: Option<seq<string>>): (r: string)
    ensures value == None || value == Some([]) ==> r == "{}"
    ensures |r| >= 2 && r[0] == '{' && r[|r| - 1] == '}'
    ensures r[1..|r| - 1] == Join(QuotedItems(OrElse(value, [])), ",")
  {
    var body := Join(QuotedItems(OrElse(value, [])), ",");
    assert ("{" + body + "}")[1..|body| + 1] == body;
    "{" + body + "}"
  }

  /** Reads one quoted element after its opening quote: `\x` stands for `x`, and the
      first bare `"` closes it. Gives the element and the text after the closing quote. */
  function ReadQuoted(s: string): (r: Option<(string, string)>)
    ensures r.Some? ==> |r.value.1| < |s|
    decreases |s|
  {
    if s == [] then None
    else if s[0] == '"' then Some(("", s[1..]))
    else if s[0] == '\\' then
      if |s| < 2 then None
      else match ReadQuoted(s[2..])
        case None => None
        case Some((item, rest)) => Some(([s[1]] + item, rest))
    else match ReadQuoted(s[1..])
      case None => None
      case Some((item, rest)) => Some(([s[0]] + item, rest))
  }

  /** One or more quoted elements separated by `,`. */
  function ParseElements(s: string): (r: Option<seq<string>>)
    ensures r.Some? ==> r.value != []
    decreases |s|
  {
    if s == [] || s[0] != '"' then None
    else match ReadQuoted(s[1..])
      case None => None
      case Some((item, rest)) =>
        if rest == [] then Some([item])
        else if rest[0] != ',' then None
        else match ParseElements(rest[1..])
          case None => None
          case Some(items) => Some([item] + items)
  }

  /** The database's reading of a text-array literal of quoted elements. */
  function ParseTextArray(lit: string): (r: Option<seq<string>>)
    ensures lit == "{}" ==> r == Some([])
  {
    if |lit| >= 2 && lit[0] == '{' && lit[|lit| - 1] == '}' then
      var body := lit[1..|lit| - 1];
      if body == [] then Some([]) else ParseElements(body)
    else None
  }

  lemma {:induction false} ReadEscaped(x: string, rest: string)
    ensures ReadQuoted(Escaped(x) + "\"" + rest) == Some((x, rest))
    decreases |x|
  {
    if x == [] {
      assert Escaped(x) + "\"" + rest == "\"" + rest;
    } else {
      ReadEscaped(x[1..], rest);
      var tail := Escaped(x[1..]) + "\"" + rest;
      assert Escaped(x) + "\"" + rest == EscapeChar(x[0]) + tail;
      assert [x[0]] + x[1..] == x;
      if x[0] == '\\' || x[0] == '"' {
        assert (EscapeChar(x[0]) + tail)[2..] == tail;
      } else {
        assert (EscapeChar(x[0]) + tail)[1..] == tail;
      }
    }
  }

  /** A quoted element followed by `rest`. */
  lemma ReadElement(x: string, rest: string)
    ensures var s := "\"" + Escaped(x) + "\"" + rest;
      s != [] && s[0] == '"' && ReadQuoted(s[1..]) == Some((x, rest))
  {
    var e := Escaped(x);
    var t := e + "\"" + rest;
    ReadEscaped(x, rest);
    Assoc("\"", e + "\"", rest);
    Assoc("\"", e, "\"");
    assert ("\"" + t)[1..] == t;
  }

  lemma ParseLast(x: string)
    ensures ParseElements("\"" + Escaped(x) + "\"") == Some([x])
  {
    ReadElement(x, "");
    assert "\"" + Escaped(x) + "\"" + "" == "\"" + Escaped(x) + "\"";
  }

  lemma ParseCons(x: string, tail: string, items: seq<string>)
    requires ParseElements(tail) == Some(items)
    ensures ParseElements("\"" + Escaped(x) + "\"" + "," + tail) == Some([x] + items)
  {
    ReadElement(x, "," + tail);
    Assoc("\"" + Escaped(x) + "\"", ",", tail);
    assert ("," + tail)[1..] == tail;
  }

  lemma {:induction false} ParseJoined(items: seq<string>)
    requires items != []
    ensures ParseElements(Join(QuotedItems(items), ",")) == Some(items)
    decreases |items|
  {
    if |items| == 1 {
      ParseJoinedOne(items);
    } else {
      ParseJoined(items[1..]);
      ParseJoinedStep(items);
    }
  }

  lemma ParseJoinedOne(items: seq<string>)
    requires |items| == 1
    ensures ParseElements(Join(QuotedItems(items), ",")) == Some(items)
  {
    var q := QuotedItems(items);
    EscapeInOnePass(items[0]);
    assert Join(q, ",") == q[0] == "\"" + Escaped(items[0]) + "\"";
    ParseLast(items[0]);
    assert items == [items[0]];
  }

  lemma ParseJoinedStep(items: seq<string>)
    requires |items| >= 2
    requires ParseElements(Join(QuotedItems(items[1..]), ",")) == Some(items[1..])
    ensures ParseElements(Join(QuotedItems(items), ",")) == Some(items)
  {
    var q := QuotedItems(items);
    EscapeInOnePass(items[0]);
    assert q[1..] == QuotedItems(items[1..]);
    assert Join(q, ",") == q[0] + "," + Join(q[1..], ",");
    ParseCons(items[0], Join(q[1..], ","), items[1..]);
    assert [items[0]] + items[1..] == items;
  }

  /** Reading back a literal gives the list it was made from. */
  lemma TextArrayRoundTrip(items: seq<string>)
    ensures ParseTextArray(ToTextArrayLiteral(Some(items))) == Some(items)
  {
    if items != [] {
      ParseJoined(items);
      var q := QuotedItems(items);
      assert q[0] == "\"" + EscapeArrayItem(items[0]) + "\"";
      assert |Join(q, ",")| > 0 by {
        if |items| > 1 { assert Join(q, ",") == q[0] + "," + Join(q[1..], ","); }
      }
    }
  }

  /** Different lists never share a literal. */
  lemma TextArrayInjective(a: seq<string>, b: seq<string>)
    requires ToTextArrayLiteral(Some(a)) == ToTextArrayLiteral(Some(b))
    ensures a == b
  {
    TextArrayRoundTrip(a);
    TextArrayRoundTrip(b);
  }

  // --------------------------------------------------------------- intern ids

  /** `formatInternId(value)` for a whole, non-negative number. */
  function FormatInternId(value: nat): (r: string)
    ensures |r| >= 4 && r[..2] == "ID" && AllDigits(r[2..])
    ensures DigitsValue(r[2..]) == value
    ensures |r| > 4 ==> r[2] != '0'
  {
    var digits := PadStart(Decimal(value), 2, '0');
    LeadingZeros(|digits| - |Decimal(value)|, Decimal(value));
    DecimalValue(value);
    assert ("ID" + digits)[2..] == digits;
    "ID" + digits
  }

  /** `Number(s)` where it matters here: a string of digits (the empty string
      included) is its value; anything else is `NaN`. */
  function NumberOf(s: string): (n: Option<nat>)
    ensures AllDigits(s) <==> n.Some?
  {
    if AllDigits(s) then Some(DigitsValue(s)) else None
  }

  /** The tail of `getMaxInternIdNumber`: no id found gives 0; otherwise the number
      after the two-letter prefix, with `NaN` read as 0. */
  function MaxIdNumber(current: Option<string>): (n: nat)
    ensures !Truthy(current) ==> n == 0
    ensures Truthy(current) && |current.value| >= 2 && AllDigits(current.value[2..]) ==>
      n == DigitsValue(current.value[2..])
  {
    if !Truthy(current) then 0
    else
      var tail := if |current.value| >= 2 then current.value[2..] else "";
      match NumberOf(tail)
      case None => 0
      case Some(v) => v
  }

  /** The number an id was formatted from is the one read back from it. */
  lemma IdNumberRoundTrip(n: nat)
    ensures MaxIdNumber(Some(FormatInternId(n))) == n
  {
    var d := Decimal(n);
    var digits := PadStart(d, 2, '0');
    LeadingZeros(|digits| - |d|, d);
    DecimalValue(n);
    assert FormatInternId(n)[2..] == digits;
  }

  /** Formatting is one-to-one: different numbers never share an id. */
  lemma FormatInternIdInjective(m: nat, n: nat)
    requires FormatInternId(m) == FormatInternId(n)
    ensures m == n
  {
    IdNumberRoundTrip(m);
    IdNumberRoundTrip(n);
  }

  // ------------------------------------------------------------------ seeding

  /** The row the seed insert writes for one record: empty image and date as NULL;
      the list columns hold what their text-array literals decode to, which
      `SeedRowLists` shows to be the lists themselves. */
  function SeedRow(x: Intern): DbRow {
    DbRow(x.id, x.name, x.role, x.email, Some(x.phone), NullIfEmpty(x.imageUrl),
          Some(x.projects), Some(x.manager), NullIfEmpty(x.startDate), Some(x.performance),
          Some(x.skills), Some(x.department))
  }

  /** The literals the seed insert sends for the list columns decode to what the row holds. */
  lemma SeedRowLists(x: Intern)
    ensures ParseTextArray(ToTextArrayLiteral(Some(x.projects))) == SeedRow(x).projects
    ensures ParseTextArray(ToTextArrayLiteral(Some(x.skills))) == SeedRow(x).skills
  {
    TextArrayRoundTrip(x.projects);
    TextArrayRoundTrip(x.skills);
  }

  /** A seeded record reads back as itself when its date is in canonical form. */
  lemma SeedRowReadBack(x: Intern, isoDay: string -> string)
    requires CanonicalDate(x.startDate, isoDay)
    ensures ToIntern(SeedRow(x), isoDay) == x
  {
  }

  /** Whether the `DATE` column accepts a non-empty date text is the parameter `dateOk`. */
  predicate DateAccepted(d: string, dateOk: string -> bool) {
    d == "" || dateOk(d)
  }

  /** The `DATE` column takes every record's date. */
  predicate DatesAccepted(xs: seq<Intern>, dateOk: string -> bool) {
    forall i :: 0 <= i < |xs| ==> DateAccepted(xs[i].startDate, dateOk)
  }

  predicate DistinctIds(xs: seq<Intern>) {
    forall i, j :: 0 <= i < j < |xs| ==> xs[i].id != xs[j].id
  }

  /** Every row is stored under its own id. */
  predicate KeyedById(rows: map<string, DbRow>) {
    forall k :: k in rows ==> rows[k].id == k
  }

  function SeedIds(seed: seq<Intern>): (ids: set<string>)
    ensures forall i :: 0 <= i < |seed| ==> seed[i].id in ids
    decreases |seed|
  {
    if seed == [] then {} else SeedIds(seed[..|seed| - 1]) + {seed[|seed| - 1].id}
  }

  lemma {:induction false} SeedIdsWitness(seed: seq<Intern>, k: string)
    requires k in SeedIds(seed)
    ensures exists i :: 0 <= i < |seed| && seed[i].id == k
    decreases |seed|
  {
    var init := seed[..|seed| - 1];
    if k != seed[|seed| - 1].id {
      SeedIdsWitness(init, k);
      var i :| 0 <= i < |init| && init[i].id == k;
      assert seed[i] == init[i];
    }
  }

  lemma {:induction false} NotInSeedIds(seed: seq<Intern>, k: string)
    requires forall i :: 0 <= i < |seed| ==> seed[i].id != k
    ensures k !in SeedIds(seed)
    decreases |seed|
  {
    if seed != [] {
      var init := seed[..|seed| - 1];
      forall i | 0 <= i < |init| ensures init[i].id != k {
        assert init[i] == seed[i];
      }
      NotInSeedIds(init, k);
    }
  }

  /** The table the seed records make when inserted one after another. */
  function SeedTable(seed: seq<Intern>): (t: map<string, DbRow>)
    ensures t.Keys == SeedIds(seed)
    ensures KeyedById(t)
    decreases |seed|
  {
    if seed == [] then map[]
    else SeedTable(seed[..|seed| - 1])[seed[|seed| - 1].id := SeedRow(seed[|seed| - 1])]
  }

  /** With distinct ids, the seeded table holds each seed record under its id. */
  lemma {:induction false} SeedTableAt(seed: seq<Intern>, i: int)
    requires DistinctIds(seed) && 0 <= i < |seed|
    ensures SeedTable(seed)[seed[i].id] == SeedRow(seed[i])
    decreases |seed|
  {
    var init := seed[..|seed| - 1];
    if i < |init| {
      assert seed[i].id != seed[|seed| - 1].id;
      assert DistinctIds(init) by {
        forall a, b | 0 <= a < b < |init| ensures init[a].id != init[b].id {
          assert init[a] == seed[a] && init[b] == seed[b];
        }
      }
      SeedTableAt(init, i);
      assert init[i] == seed[i];
    }
  }

  lemma {:induction false} SeedTableSize(seed: seq<Intern>)
    requires DistinctIds(seed)
    ensures |SeedTable(seed)| == |seed|
    decreases |seed|
  {
    if seed != [] {
      var init := seed[..|seed| - 1];
      var last := seed[|seed| - 1];
      assert DistinctIds(init) by {
        forall a, b | 0 <= a < b < |init| ensures init[a].id != init[b].id {
          assert init[a] == seed[a] && init[b] == seed[b];
        }
      }
      SeedTableSize(init);
      forall i | 0 <= i < |init| ensures init[i].id != last.id {
        assert init[i] == seed[i];
      }
      NotInSeedIds(init, last.id);
    }
  }

  /** After a reset the table is the seed set: one row per seed record, each
      reading back as that record, and no other row. */
  lemma SeedTableIsSeed(seed: seq<Intern>, isoDay: string -> string)
    requires DistinctIds(seed)
    requires forall i :: 0 <= i < |seed| ==> CanonicalDate(seed[i].startDate, isoDay)
    ensures |SeedTable(seed)| == |seed|
    ensures forall i :: 0 <= i < |seed| ==> ToIntern(SeedTable(seed)[seed[i].id], isoDay) == seed[i]
    ensures forall k :: k in SeedTable(seed) ==> exists i :: 0 <= i < |seed| && seed[i].id == k
  {
    forall i | 0 <= i < |seed| ensures ToIntern(SeedTable(seed)[seed[i].id], isoDay) == seed[i] {
      SeedTableAt(seed, i);
      SeedRowReadBack(seed[i], isoDay);
    }
    forall k | k in SeedTable(seed) ensures exists i :: 0 <= i < |seed| && seed[i].id == k {
      SeedIdsWitness(seed, k);
    }
    SeedTableSize(seed);
  }

  /** The seed loop's step: one more record inserted. */
  lemma SeedStep(seed: seq<Intern>, i: int, dateOk: string -> bool)
    requires 0 <= i < |seed|
    requires DistinctIds(seed[..i]) && seed[i].id !in SeedIds(seed[..i])
    requires DatesAccepted(seed[..i], dateOk) && DateAccepted(seed[i].startDate, dateOk)
    ensures SeedTable(seed[..i + 1]) == SeedTable(seed[..i])[seed[i].id := SeedRow(seed[i])]
    ensures DistinctIds(seed[..i + 1]) && DatesAccepted(seed[..i + 1], dateOk)
  {
    var pre := seed[..i + 1];
    assert pre[..i] == seed[..i];
    forall a, b | 0 <= a < b <= i ensures pre[a].id != pre[b].id {
      if b == i {
        assert seed[..i][a] == pre[a];
      } else {
        assert seed[..i][a] == pre[a] && seed[..i][b] == pre[b];
      }
    }
    forall a | 0 <= a < i ensures DateAccepted(pre[a].startDate, dateOk) {
      assert seed[..i][a] == pre[a];
    }
  }

  /** A repeated id in the seed: the records cannot all be inserted. */
  lemma SeedDuplicate(seed: seq<Intern>, i: int)
    requires 0 <= i < |seed| && seed[i].id in SeedIds(seed[..i])
    ensures !DistinctIds(seed)
  {
    SeedIdsWitness(seed[..i], seed[i].id);
    var j :| 0 <= j < i && seed[..i][j].id == seed[i].id;
    assert seed[j].id == seed[i].id;
  }

  /** The `interns` table. */
  class Table {
    var rows: map<string, DbRow>

    constructor(rows0: map<string, DbRow>)
      ensures rows == rows0
    {
      rows := rows0;
    }

    /** `seedIfEmpty()`: a table with rows is left alone; an empty one receives the
        seed records one by one. An insert fails on an id already present or a date
        the column refuses, and the rows inserted before it stay. */
    method SeedIfEmpty(seed: seq<Intern>, dateOk: string -> bool) returns (ok: bool)
      modifies this`rows
      ensures |old(rows)| != 0 ==> ok && rows == old(rows)
      ensures |old(rows)| == 0 ==>
        (ok <==> DistinctIds(seed) && DatesAccepted(seed, dateOk))
      ensures |old(rows)| == 0 && ok ==> rows == SeedTable(seed)
      ensures |old(rows)| == 0 && !ok ==> exists k :: 0 <= k < |seed| && rows == SeedTable(seed[..k])
    {
      if |rows| != 0 {
        return true;
      }
      var i := 0;
      while i < |seed|
        invariant 0 <= i <= |seed|
        invariant rows == SeedTable(seed[..i])
        invariant DistinctIds(seed[..i])
        invariant DatesAccepted(seed[..i], dateOk)
      {
        var x := seed[i];
        if x.id in rows {
          SeedDuplicate(seed, i);
          return false;
        }
        if !DateAccepted(x.startDate, dateOk) {
          return false;
        }
        SeedStep(seed, i, dateOk);
        rows := rows[x.id := SeedRow(x)];
        i := i + 1;
      }
      assert seed[..|seed|] == seed;
      return true;
    }

    /** `resetSeed()`: every row deleted, then seeded. */
    method ResetSeed(seed: seq<Intern>, dateOk: string -> bool) returns (ok: bool)
      modifies this`rows
      ensures ok <==> DistinctIds(seed) && DatesAccepted(seed, dateOk)
      ensures ok ==> rows == SeedTable(seed)
    {
      rows := map[];
      ok := SeedIfEmpty(seed, dateOk);
    }
  }

  // -------------------------------------------------------- ORDER BY id ASC

  /** `k` is an id of `ids` that no other one precedes. */
  predicate IsLeast(k: string, ids: set<string>) {
    k in ids && forall j :: j in ids ==> !LexLess(j, k)
  }

  /** Every non-empty set of ids has a least one. */
  lemma {:induction false} LeastIdExists(ids: set<string>)
    requires ids != {}
    ensures exists k :: IsLeast(k, ids)
    decreases |ids|
  {
    var x :| x in ids;
    if ids == {x} {
      LexIrreflexive(x);
      assert IsLeast(x, ids);
    } else {
      LeastIdExists(ids - {x});
      var m :| IsLeast(m, ids - {x});
      LeastStep(ids, x, m);
    }
  }

  /** Adding `x` back: the lesser of `x` and the least of the rest is least. */
  lemma LeastStep(ids: set<string>, x: string, m: string)
    requires x in ids && IsLeast(m, ids - {x})
    ensures IsLeast(if LexLess(x, m) then x else m, ids)
  {
    if LexLess(x, m) {
      forall j | j in ids ensures !LexLess(j, x) {
        if j == x {
          LexIrreflexive(x);
        } else if LexLess(j, x) {
          LexTransitive(j, x, m);
        }
      }
    } else {
      assert forall j :: j in ids ==> !LexLess(j, m);
    }
  }

  /** The ids in ascending order. */
  function SortedIds(ids: set<string>): (r: seq<string>)
    ensures |r| == |ids|
    ensures forall k :: k in r <==> k in ids
    ensures forall i :: 0 <= i < |r| ==> r[i] in ids
    ensures forall i, j :: 0 <= i < j < |r| ==> LexLess(r[i], r[j])
    decreases |ids|
  {
    if ids == {} then []
    else
      LeastIdExists(ids);
      LeastUnique(ids);
      var k :| IsLeast(k, ids);
      var rest := SortedIds(ids - {k});
      LeastFirst(ids, k, rest);
      [k] + rest
  }

  /** There is at most one least id. */
  lemma LeastUnique(ids: set<string>)
    ensures forall a, b :: IsLeast(a, ids) && IsLeast(b, ids) ==> a == b
  {
    forall a, b | IsLeast(a, ids) && IsLeast(b, ids) ensures a == b {
      LexTotal(a, b);
    }
  }

  /** The least id put before the sorted others sorts them all. */
  lemma LeastFirst(ids: set<string>, k: string, rest: seq<string>)
    requires IsLeast(k, ids)
    requires |rest| == |ids - {k}|
    requires forall x :: x in rest <==> x in ids - {k}
    requires forall i :: 0 <= i < |rest| ==> rest[i] in ids - {k}
    requires forall i, j :: 0 <= i < j < |rest| ==> LexLess(rest[i], rest[j])
    ensures var r := [k] + rest;
      |r| == |ids| && (forall x :: x in r <==> x in ids)
      && (forall i :: 0 <= i < |r| ==> r[i] in ids)
      && (forall i, j :: 0 <= i < j < |r| ==> LexLess(r[i], r[j]))
  {
    var r := [k] + rest;
    forall j | 0 <= j < |rest| ensures LexLess(k, rest[j]) {
      LexTotal(k, rest[j]);
    }
    forall i, j | 0 <= i < j < |r| ensures LexLess(r[i], r[j]) {
      assert r[j] == rest[j - 1];
      if i > 0 { assert r[i] == rest[i - 1]; }
    }
    forall i | 0 <= i < |r| ensures r[i] in ids {
      if i > 0 { assert r[i] == rest[i - 1]; }
    }
  }

  /** `SELECT * FROM interns ORDER BY id ASC`, each row through `toIntern`. */
  function ListById(rows: map<string, DbRow>, isoDay: string -> string): (xs: seq<Intern>)
    requires KeyedById(rows)
    ensures |xs| == |rows|
  {
    var ids := SortedIds(rows.Keys);
    seq(|ids|, i requires 0 <= i < |ids| => ToIntern(rows[ids[i]], isoDay))
  }

  /** The listing holds every row once, read through `toIntern`, in ascending id order. */
  lemma ListByIdSpec(rows: map<string, DbRow>, isoDay: string -> string)
    requires KeyedById(rows)
    ensures var xs := ListById(rows, isoDay);
      (forall i :: 0 <= i < |xs| ==> xs[i].id in rows && xs[i] == ToIntern(rows[xs[i].id], isoDay))
      && (forall k :: k in rows ==> exists i :: 0 <= i < |xs| && xs[i].id == k)
      && (forall i, j :: 0 <= i < j < |xs| ==> LexLess(xs[i].id, xs[j].id))
  {
    var ids := SortedIds(rows.Keys);
    var xs := ListById(rows, isoDay);
    forall i | 0 <= i < |xs| ensures xs[i].id == ids[i] && xs[i] == ToIntern(rows[xs[i].id], isoDay) {
      assert xs[i] == ToIntern(rows[ids[i]], isoDay);
      assert rows[ids[i]].id == ids[i];
    }
    forall k | k in rows ensures exists i :: 0 <= i < |xs| && xs[i].id == k {
      var i :| 0 <= i < |ids| && ids[i] == k;
      assert xs[i].id == k;
    }
  }
}
