/** assets/script.js: the deterministic parts of the dashboard. These are
    the sort-state machine and its comparator, the tag column of the
    table, the CSV export and the "last sync / next sync" arithmetic.
    Events are JavaScript objects from field name to value. */
module Dashboard {

  import opened Wrappers
  import opened Text

  /** A field value: null and undefined are both Missing. */
  datatype Cell = Missing | Str(s: string) | Num(n: int)

  type Event = map<string, Cell>

  /** `a[field]`. */
  function Get(e: Event, field: string): Cell
  {
    if field in e then e[field] else Missing
  }

  // ----- the sort state -----

  datatype Direction = Asc | Desc

  datatype SortState = SortState(field: string, direction: Direction)

  /** `state.sort` when the page loads. */
  const InitialSort := SortState("data_inicio", Desc)

  /** handleSort: the same column flips the direction, a new column starts
      ascending. */
  function NextSort(s: SortState, field: string): (r: SortState)
    ensures r.field == field
    ensures s.field == field ==> r.direction != s.direction
    ensures s.field != field ==> r.direction == Asc
  {
    if s.field == field then s.(direction := if s.direction == Asc then Desc else Asc)
    else SortState(field, Asc)
  }

  /** Clicking the same column twice restores the order; clicking a new
      column twice sorts it descending. */
  lemma NextSortTwice(s: SortState, field: string)
    ensures s.field == field ==> NextSort(NextSort(s, field), field) == s
    ensures s.field != field ==> NextSort(NextSort(s, field), field) == SortState(field, Desc)
  {
  }

  // ----- the comparator -----

  /** The comparator's key: null and undefined become '', strings are
      lower-cased, numbers stay. It is never Missing. */
  function Key(e: Event, field: string): (k: Cell)
    ensures !k.Missing?
  {
    match Get(e, field)
    case Missing => Str("")
    case Str(s) => Str(ToLower(s))
    case Num(n) => Num(n)
  }

  /** JavaScript's `x > y` on two keys: strings by code unit order, numbers
      numerically, a string against a number through Number(), where NaN
      (None) compares false both ways. */
  predicate After(x: Cell, y: Cell)
  {
    match (x, y)
    case (Str(a), Str(b)) => LexLess(b, a)
    case (Num(a), Num(b)) => a > b
    case (Str(a), Num(b)) => var v := JsStringToNumber(a); v.Some? && v.value > b
    case (Num(a), Str(b)) => var v := JsStringToNumber(b); v.Some? && a > v.value
    case _ => false
  }

  /** The ascending comparison of sortEvents: -1 when a's key is below b's,
      1 when above, 0 otherwise. */
  function AscCompare(a: Event, b: Event, field: string): (c: int)
    ensures c == -1 <==> After(Key(b, field), Key(a, field))
    ensures c == 1 <==> !After(Key(b, field), Key(a, field)) && After(Key(a, field), Key(b, field))
    ensures c in {-1, 0, 1}
  {
    KeyOrder(Key(a, field), Key(b, field))
  }

  /** The comparison of two keys: -1 when x < y, 1 when x > y, else 0. */
  function KeyOrder(x: Cell, y: Cell): int
  {
    if After(y, x) then -1 else if After(x, y) then 1 else 0
  }

  lemma KeyOrderAntisymmetric(x: Cell, y: Cell)
    ensures KeyOrder(x, y) == -KeyOrder(y, x)
  {
    if After(x, y) {
      AfterAsymmetric(x, y);
    }
  }

  /** sortEvents's comparator: 'desc' is the negation of 'asc'. */
  function Compare(a: Event, b: Event, field: string, dir: Direction): (c: int)
    ensures c in {-1, 0, 1}
    ensures dir == Desc ==> c == -AscCompare(a, b, field)
    ensures dir == Asc ==> c == AscCompare(a, b, field)
  {
    var c := AscCompare(a, b, field);
    if dir == Asc then c else -c
  }

  /** JavaScript's `>` never holds both ways between two keys. */
  lemma AfterAsymmetric(x: Cell, y: Cell)
    requires After(x, y)
    ensures !After(y, x)
  {
    if x.Str? && y.Str? {
      LexLessAsymmetric(y.s, x.s);
    }
  }

  /** Swapping the operands negates the comparison. */
  lemma CompareAntisymmetric(a: Event, b: Event, field: string, dir: Direction)
    ensures Compare(a, b, field, dir) == -Compare(b, a, field, dir)
  {
    KeyOrderAntisymmetric(Key(a, field), Key(b, field));
  }

  /** `a` may come before `b`. */
  predicate InOrder(a: Event, b: Event, field: string, dir: Direction)
  {
    Compare(a, b, field, dir) <= 0
  }

  /** The key of `e` is a string (every non-numeric value is one). */
  predicate TextKey(e: Event, field: string)
  {
    Key(e, field).Str?
  }

  /** `!(x > y)` is transitive among strings and among numbers. */
  lemma NotAfterTransitive(x: Cell, y: Cell, z: Cell)
    requires (x.Str? && y.Str? && z.Str?) || (x.Num? && y.Num? && z.Num?)
    requires !After(x, y) && !After(y, z)
    ensures !After(x, z)
  {
    if x.Str? && After(x, z) {
      var a, b, c := x.s, y.s, z.s;
      if a != b {
        LexLessTotal(a, b);
      }
      if b != c {
        LexLessTotal(b, c);
      }
      if a != b && b != c {
        LexLessTransitive(a, b, c);
        LexLessAsymmetric(a, c);
      } else if a != b {
        LexLessAsymmetric(a, c);
      } else if b != c {
        LexLessAsymmetric(b, c);
      } else {
        LexLessIrreflexive(c);
      }
    }
  }

  /** Among events whose keys are all strings, or all numbers, the
      comparator is a total preorder. */
  lemma InOrderTransitive(a: Event, b: Event, c: Event, field: string, dir: Direction)
    requires TextKey(a, field) == TextKey(b, field) == TextKey(c, field)
    requires InOrder(a, b, field, dir) && InOrder(b, c, field, dir)
    ensures InOrder(a, c, field, dir)
  {
    var x, y, z := Key(a, field), Key(b, field), Key(c, field);
    if dir == Asc {
      if After(y, x) { AfterAsymmetric(y, x); }
      if After(z, y) { AfterAsymmetric(z, y); }
      NotAfterTransitive(x, y, z);
      if After(z, x) { AfterAsymmetric(z, x); }
    } else {
      if After(x, y) { AfterAsymmetric(x, y); }
      if After(y, z) { AfterAsymmetric(y, z); }
      NotAfterTransitive(z, y, x);
      if After(x, z) { AfterAsymmetric(x, z); }
    }
  }

  lemma InOrderTotal(a: Event, b: Event, field: string, dir: Direction)
    ensures InOrder(a, b, field, dir) || InOrder(b, a, field, dir)
  {
    CompareAntisymmetric(a, b, field, dir);
  }

  // ----- sortEvents -----

  /** Every event's key is of the one kind `text` says. */
  predicate SameKind(s: seq<Event>, field: string, text: bool)
  {
    forall i :: 0 <= i < |s| ==> TextKey(s[i], field) == text
  }

  predicate Sorted(s: seq<Event>, field: string, dir: Direction)
  {
    forall i, j :: 0 <= i < j < |s| ==> InOrder(s[i], s[j], field, dir)
  }

  /** Places `x` after the leading events that may precede it. */
  function Insert(x: Event, s: seq<Event>, field: string, dir: Direction): (r: seq<Event>)
    ensures multiset(r) == multiset(s) + multiset{x}
  {
    if s == [] then [x]
    else if InOrder(s[0], x, field, dir) then
      assert s == [s[0]] + s[1..];
      [s[0]] + Insert(x, s[1..], field, dir)
    else [x] + s
  }

  /** `events.sort(comparator)` on the copy updateTable makes, as the
      insertion sort that yields a stable order. */
  function SortEvents(s: seq<Event>, field: string, dir: Direction): (r: seq<Event>)
    ensures multiset(r) == multiset(s)
    ensures |r| == |s|
  {
    if s == [] then []
    else
      var n := |s| - 1;
      var rest := SortEvents(s[..n], field, dir);
      assert s == s[..n] + [s[n]];
      assert multiset(s) == multiset(s[..n]) + multiset{s[n]};
      Insert(s[n], rest, field, dir)
  }

  /** An event that may precede both `x` and every event of `t` may
      precede every event of `Insert(x, t)`. */
  lemma PrecedesInsert(y: Event, x: Event, t: seq<Event>, field: string, dir: Direction)
    requires InOrder(y, x, field, dir)
    requires forall k :: 0 <= k < |t| ==> InOrder(y, t[k], field, dir)
    ensures forall j :: 0 <= j < |Insert(x, t, field, dir)| ==> InOrder(y, Insert(x, t, field, dir)[j], field, dir)
  {
    var r := Insert(x, t, field, dir);
    forall j | 0 <= j < |r|
      ensures InOrder(y, r[j], field, dir)
    {
      assert r[j] in multiset(r);
      if r[j] != x {
        assert r[j] in multiset(t);
        var k :| 0 <= k < |t| && t[k] == r[j];
      }
    }
  }

  lemma {:induction false} InsertSorted(x: Event, s: seq<Event>, field: string, dir: Direction, text: bool)
    requires Sorted(s, field, dir) && SameKind(s, field, text) && TextKey(x, field) == text
    ensures Sorted(Insert(x, s, field, dir), field, dir)
  {
    if s != [] {
      var r := Insert(x, s, field, dir);
      if InOrder(s[0], x, field, dir) {
        var t := Insert(x, s[1..], field, dir);
        assert Sorted(s[1..], field, dir) && SameKind(s[1..], field, text) by {
          forall i | 0 <= i < |s| - 1
            ensures s[1..][i] == s[i + 1]
          {
          }
        }
        InsertSorted(x, s[1..], field, dir, text);
        assert r == [s[0]] + t;
        PrecedesInsert(s[0], x, s[1..], field, dir);
        ConsSorted(s[0], t, field, dir);
      } else {
        InOrderTotal(s[0], x, field, dir);
        assert r == [x] + s;
        forall k | 0 <= k < |s|
          ensures InOrder(x, s[k], field, dir)
        {
          if k > 0 {
            InOrderTransitive(x, s[0], s[k], field, dir);
          }
        }
        ConsSorted(x, s, field, dir);
      }
    }
  }

  /** An event that may precede every event of a sorted sequence may head it. */
  lemma ConsSorted(y: Event, t: seq<Event>, field: string, dir: Direction)
    requires Sorted(t, field, dir)
    requires forall k :: 0 <= k < |t| ==> InOrder(y, t[k], field, dir)
    ensures Sorted([y] + t, field, dir)
  {
    var r := [y] + t;
    forall i, j | 0 <= i < j < |r|
      ensures InOrder(r[i], r[j], field, dir)
    {
      assert r[j] == t[j - 1];
      if i > 0 {
        assert r[i] == t[i - 1];
      }
    }
  }

  lemma SameKindPrefix(s: seq<Event>, n: nat, field: string, text: bool)
    requires SameKind(s, field, text) && n <= |s|
    ensures SameKind(s[..n], field, text)
  {
  }

  /** When a column's values are all text (or null) or all numbers, the
      sorted copy is ordered by the comparator; in every case it is a
      permutation of the events. */
  lemma {:induction false} SortEventsSorted(s: seq<Event>, field: string, dir: Direction, text: bool)
    requires SameKind(s, field, text)
    ensures Sorted(SortEvents(s, field, dir), field, dir)
    ensures multiset(SortEvents(s, field, dir)) == multiset(s)
  {
    if s != [] {
      var n := |s| - 1;
      SameKindPrefix(s, n, field, text);
      SortEventsSorted(s[..n], field, dir, text);
      var sorted := SortEvents(s[..n], field, dir);
      forall i | 0 <= i < |sorted|
        ensures TextKey(sorted[i], field) == text
      {
        assert sorted[i] in multiset(s[..n]);
        var k :| 0 <= k < n && s[..n][k] == sorted[i];
      }
      InsertSorted(s[n], sorted, field, dir, text);
    }
  }

  /** The events of `s` whose key in `field` is `c`, in their order. */
  function WithKey(s: seq<Event>, field: string, c: Cell): seq<Event>
  {
    if s == [] then [] else (if Key(s[0], field) == c then [s[0]] else []) + WithKey(s[1..], field, c)
  }

  lemma {:induction false} WithKeyAppend(a: seq<Event>, b: seq<Event>, field: string, c: Cell)
    ensures WithKey(a + b, field, c) == WithKey(a, field, c) + WithKey(b, field, c)
  {
    if a == [] {
      assert a + b == b;
    } else {
      var head := if Key(a[0], field) == c then [a[0]] else [];
      assert (a + b)[0] == a[0];
      assert (a + b)[1..] == a[1..] + b;
      WithKeyAppend(a[1..], b, field, c);
      AppendAssoc(head, WithKey(a[1..], field, c), WithKey(b, field, c));
    }
  }

  lemma {:induction false} WithKeyNone(s: seq<Event>, field: string, c: Cell)
    requires forall k :: 0 <= k < |s| ==> Key(s[k], field) != c
    ensures WithKey(s, field, c) == []
  {
    if s != [] {
      WithKeyNone(s[1..], field, c);
    }
  }

  lemma KeyOrderSelf(y: Cell)
    ensures KeyOrder(y, y) == 0
  {
    if y.Str? {
      LexLessIrreflexive(y.s);
    }
  }

  lemma SortedTail(t: seq<Event>, field: string, dir: Direction)
    requires Sorted(t, field, dir) && t != []
    ensures Sorted(t[1..], field, dir)
  {
    forall i, j | 0 <= i < j < |t| - 1
      ensures InOrder(t[1..][i], t[1..][j], field, dir)
    {
      assert t[1..][i] == t[i + 1] && t[1..][j] == t[j + 1];
    }
  }

  /** No event of a sorted sequence whose head must follow `x` has the
      key of `x`: events with equal keys compare equal. */
  lemma NoEqualKeyAfter(x: Event, t: seq<Event>, field: string, dir: Direction)
    requires Sorted(t, field, dir) && t != [] && !InOrder(t[0], x, field, dir)
    ensures WithKey(t, field, Key(x, field)) == []
  {
    KeyOrderSelf(Key(x, field));
    forall k | 0 <= k < |t|
      ensures Key(t[k], field) != Key(x, field)
    {
      if k > 0 {
        assert InOrder(t[0], t[k], field, dir);
      }
    }
    WithKeyNone(t, field, Key(x, field));
  }

  lemma AppendAssoc<T>(a: seq<T>, b: seq<T>, c: seq<T>)
    ensures a + (b + c) == (a + b) + c
  {
  }

  /** The key filter of a sequence with a known head. */
  lemma WithKeyCons(y: Event, t: seq<Event>, field: string, c: Cell)
    ensures WithKey([y] + t, field, c) == (if Key(y, field) == c then [y] else []) + WithKey(t, field, c)
  {
    assert ([y] + t)[1..] == t;
  }

  /** The key filter of a sequence with a known last event. */
  lemma WithKeyLast(s: seq<Event>, field: string, c: Cell)
    requires s != []
    ensures var x := s[|s| - 1];
      WithKey(s, field, c) == WithKey(s[..|s| - 1], field, c) + (if Key(x, field) == c then [x] else [])
  {
    var x := s[|s| - 1];
    assert s == s[..|s| - 1] + [x];
    WithKeyAppend(s[..|s| - 1], [x], field, c);
    WithKeyCons(x, [], field, c);
    assert [x] + [] == [x];
  }

  /** When `x` goes past the head, the head's key filter comes first. */
  lemma InsertPastHead(x: Event, t: seq<Event>, field: string, dir: Direction, c: Cell)
    requires t != [] && InOrder(t[0], x, field, dir)
    requires WithKey(Insert(x, t[1..], field, dir), field, c) == WithKey(t[1..], field, c) + (if Key(x, field) == c then [x] else [])
    ensures WithKey(Insert(x, t, field, dir), field, c) == WithKey(t, field, c) + (if Key(x, field) == c then [x] else [])
  {
    var r := Insert(x, t[1..], field, dir);
    var h := if Key(t[0], field) == c then [t[0]] else [];
    assert Insert(x, t, field, dir) == [t[0]] + r;
    WithKeyCons(t[0], r, field, c);
    assert WithKey(t, field, c) == h + WithKey(t[1..], field, c);
    AppendAssoc(h, WithKey(t[1..], field, c), if Key(x, field) == c then [x] else []);
  }

  /** When `x` goes in front, no event behind it shares its key. */
  lemma InsertAtHead(x: Event, t: seq<Event>, field: string, dir: Direction, c: Cell)
    requires t != [] && !InOrder(t[0], x, field, dir)
    requires Key(x, field) == c ==> WithKey(t, field, c) == []
    ensures WithKey(Insert(x, t, field, dir), field, c) == WithKey(t, field, c) + (if Key(x, field) == c then [x] else [])
  {
    assert Insert(x, t, field, dir) == [x] + t;
    WithKeyCons(x, t, field, c);
    if Key(x, field) == c {
      assert [x] + [] == [] + [x];
    } else {
      assert [] + WithKey(t, field, c) == WithKey(t, field, c) + [];
    }
  }

  /** Inserting `x` into a sorted sequence places it after every event
      with the same key. */
  lemma {:induction false} InsertStable(x: Event, t: seq<Event>, field: string, dir: Direction, c: Cell)
    requires Sorted(t, field, dir)
    ensures WithKey(Insert(x, t, field, dir), field, c) == WithKey(t, field, c) + (if Key(x, field) == c then [x] else [])
  {
    if t == [] {
      WithKeyCons(x, [], field, c);
    } else if InOrder(t[0], x, field, dir) {
      SortedTail(t, field, dir);
      InsertStable(x, t[1..], field, dir, c);
      InsertPastHead(x, t, field, dir, c);
    } else {
      if Key(x, field) == c {
        NoEqualKeyAfter(x, t, field, dir);
      }
      InsertAtHead(x, t, field, dir, c);
    }
  }

  /** The sort is stable: among events whose keys are all text or all
      numbers, those with equal keys keep the order they had. */
  lemma {:induction false} SortEventsStable(s: seq<Event>, field: string, dir: Direction, text: bool, c: Cell)
    requires SameKind(s, field, text)
    ensures WithKey(SortEvents(s, field, dir), field, c) == WithKey(s, field, c)
  {
    if s != [] {
      var n := |s| - 1;
      var init, x := s[..n], s[n];
      var sorted := SortEvents(init, field, dir);
      var last := if Key(x, field) == c then [x] else [];
      assert SortEvents(s, field, dir) == Insert(x, sorted, field, dir);
      SameKindPrefix(s, n, field, text);
      SortEventsStable(init, field, dir, text, c);
      SortEventsSorted(init, field, dir, text);
      InsertStable(x, sorted, field, dir, c);
      WithKeyLast(s, field, c);
    }
  }

  /** The dashboard's mutable state: the sort and the events the filters
      let through. */
  class DashboardState {
    var sort: SortState
    var filteredEvents: seq<Event>

    constructor ()
      ensures sort == InitialSort && filteredEvents == []
    {
      sort := InitialSort;
      filteredEvents := [];
    }

    /** handleSort, before the table is redrawn. */
    method HandleSort(field: string)
      modifies this`sort
      ensures sort == NextSort(old(sort), field)
    {
      if sort.field == field {
        sort := sort.(direction := if sort.direction == Asc then Desc else Asc);
      } else {
        sort := SortState(field, Asc);
      }
    }

    /** The rows updateTable draws: a sorted copy; `filteredEvents` keeps
        its order. */
    method SortedRows() returns (rows: seq<Event>)
      ensures rows == SortEvents(filteredEvents, sort.field, sort.direction)
      ensures multiset(rows) == multiset(filteredEvents)
    {
      var copy := filteredEvents;
      rows := SortEvents(copy, sort.field, sort.direction);
    }
  }

  // ----- the tag column -----

  /** `event.k` when it is a non-empty string (JavaScript truthiness). */
  function TruthyText(e: Event, k: string): Option<string>
  {
    match Get(e, k)
    case Str(s) => if s != "" then Some(s) else None
    case _ => None
  }

  /** `s.split(',').map(t => t.trim())`. */
  function SplitTrim(s: string): (r: seq<string>)
    ensures |r| == |Split(s, ',')| >= 1
  {
    var parts := Split(s, ',');
    seq(|parts|, i requires 0 <= i < |parts| => JsTrim(parts[i]))
  }

  /** Each tag is a trimmed piece between commas: no ',' in it, no
      longer than its piece, and no blank at either end. */
  lemma SplitTrimPieces(s: string, i: nat)
    requires i < |SplitTrim(s)|
    ensures var t := SplitTrim(s)[i];
      && ',' !in t && |t| <= |Split(s, ',')[i]|
      && (t == [] || (t[0] !in JsTrimChars && t[|t| - 1] !in JsTrimChars))
  {
    var p := Split(s, ',')[i];
    assert SplitTrim(s)[i] == Trim(p, JsTrimChars);
    TrimWithin(p, JsTrimChars, ',');
  }

  /** The event's tags: its `tags` field, else its language names. */
  function Tags(e: Event): (tags: seq<string>)
    ensures tags == [] <==> TruthyText(e, "tags").None? && TruthyText(e, "linguagens").None?
    ensures TruthyText(e, "tags").Some? ==> |tags| == |Split(TruthyText(e, "tags").value, ',')|
  {
    match TruthyText(e, "tags")
    case Some(t) => SplitTrim(t)
    case None =>
      match TruthyText(e, "linguagens")
      case Some(l) => SplitTrim(l)
      case None => []
  }

  /** What the tag cell shows: a dash, or the first tags and a "+k" badge
      (k = 0 meaning no badge). */
  datatype TagCell = NoTags | TagList(shown: seq<string>, more: nat)

  function TagDisplay(tags: seq<string>): (d: TagCell)
    ensures d.NoTags? <==> tags == []
    ensures d.TagList? ==> |d.shown| == Min(2, |tags|) && d.shown == tags[..|d.shown|]
    ensures d.TagList? ==> |d.shown| + d.more == |tags| && (d.more > 0 <==> |tags| > 2)
  {
    if tags == [] then NoTags
    else if |tags| <= 2 then TagList(tags, 0)
    else TagList(tags[..2], |tags| - 2)
  }

  // ----- CSV export -----

  /** `.replace(/"/g, '""')`. */
  function DoubleQuotes(s: string): (r: string)
    ensures |r| >= |s|
  {
    if s == [] then []
    else (if s[0] == '"' then "\"\"" else [s[0]]) + DoubleQuotes(s[1..])
  }

  /** A quoted CSV field. */
  function QuoteCsv(s: string): (q: string)
    ensures |q| >= 2 && q[0] == '"' && q[|q| - 1] == '"'
  {
    "\"" + DoubleQuotes(s) + "\""
  }

  /** Reads the inside of a quoted field back: "" is one quote, a lone
      quote is malformed. */
  function Undouble(t: string): Option<string>
  {
    if t == [] then Some([])
    else if t[0] == '"' then
      if |t| >= 2 && t[1] == '"' then
        match Undouble(t[2..])
        case Some(rest) => Some("\"" + rest)
        case None => None
      else None
    else
      match Undouble(t[1..])
      case Some(rest) => Some([t[0]] + rest)
      case None => None
  }

  function UnquoteCsv(q: string): Option<string>
  {
    if |q| >= 2 && q[0] == '"' && q[|q| - 1] == '"' then Undouble(q[1..|q| - 1]) else None
  }

  lemma {:induction false} UndoubleDoubleQuotes(s: string)
    ensures Undouble(DoubleQuotes(s)) == Some(s)
  {
    if s != [] {
      UndoubleDoubleQuotes(s[1..]);
      var d := DoubleQuotes(s);
      if s[0] == '"' {
        assert d[2..] == DoubleQuotes(s[1..]);
      } else {
        assert d[1..] == DoubleQuotes(s[1..]);
      }
      assert [s[0]] + s[1..] == s;
    }
  }

  /** A quoted field reads back as the text it quotes. */
  lemma QuoteCsvRoundTrip(s: string)
    ensures UnquoteCsv(QuoteCsv(s)) == Some(s)
  {
    var q := QuoteCsv(s);
    assert q[1..|q| - 1] == DoubleQuotes(s);
    UndoubleDoubleQuotes(s);
  }

  const CsvHeaders: seq<string> := ["ID", "ID Externo", "Nome", "Município", "Linguagens", "Data Início", "Data Fim"]

  /** How Array.prototype.join writes a value: null and undefined as ''. */
  function CellText(c: Cell): string
  {
    match c
    case Missing => ""
    case Str(s) => s
    case Num(n) => IntToString(n)
  }

  /** JavaScript's truthiness of a value. */
  predicate Truthy(c: Cell)
  {
    match c
    case Missing => false
    case Str(s) => s != ""
    case Num(n) => n != 0
  }

  /** `event.k || ''`. */
  function OrEmpty(e: Event, k: string): string
  {
    if Truthy(Get(e, k)) then CellText(Get(e, k)) else ""
  }

  /** One row of the export; `formatDate` is toLocaleDateString('pt-BR'). */
  function CsvRow(e: Event, formatDate: string -> string): (row: seq<string>)
    ensures |row| == |CsvHeaders|
    ensures row[0] == CellText(Get(e, "id"))
    ensures UnquoteCsv(row[2]) == Some(OrEmpty(e, "nome"))
    ensures UnquoteCsv(row[4]) == Some(OrEmpty(e, "linguagens"))
    ensures row[3] == OrEmpty(e, "municipio")
    ensures !Truthy(Get(e, "data_inicio")) ==> row[5] == ""
    ensures !Truthy(Get(e, "data_fim")) ==> row[6] == ""
  {
    QuoteCsvRoundTrip(OrEmpty(e, "nome"));
    QuoteCsvRoundTrip(OrEmpty(e, "linguagens"));
    [CellText(Get(e, "id")),
     OrEmpty(e, "external_id"),
     QuoteCsv(OrEmpty(e, "nome")),
     OrEmpty(e, "municipio"),
     QuoteCsv(OrEmpty(e, "linguagens")),
     if Truthy(Get(e, "data_inicio")) then formatDate(CellText(Get(e, "data_inicio"))) else "",
     if Truthy(Get(e, "data_fim")) then formatDate(CellText(Get(e, "data_fim"))) else ""]
  }

  /** `row.join(',')` for one event. */
  function CsvLine(e: Event, formatDate: string -> string): string
  {
    Join(CsvRow(e, formatDate), ",")
  }

  /** The header row as one line. */
  function HeaderLine(): string
  {
    Join(CsvHeaders, ",")
  }

  /** One line per event, in the events' order. */
  function RowLines(events: seq<Event>, formatDate: string -> string): (lines: seq<string>)
    ensures |lines| == |events|
  {
    if events == [] then [] else [CsvLine(events[0], formatDate)] + RowLines(events[1..], formatDate)
  }

  lemma {:induction false} RowLinesAt(events: seq<Event>, formatDate: string -> string, i: nat)
    requires i < |events|
    ensures RowLines(events, formatDate)[i] == CsvLine(events[i], formatDate)
  {
    if i > 0 {
      RowLinesAt(events[1..], formatDate, i - 1);
    }
  }

  /** The header line followed by the event lines. */
  function CsvLines(events: seq<Event>, formatDate: string -> string): (lines: seq<string>)
    ensures |lines| == |events| + 1
  {
    [HeaderLine()] + RowLines(events, formatDate)
  }

  /** exportToCSV: nothing to export is an error; otherwise the BOM and the
      lines joined with '\n'. */
  function ExportCsv(events: seq<Event>, formatDate: string -> string): (r: Result<string>)
    ensures events == [] <==> r.Err?
    ensures r.Err? ==> r.message == "Nenhum dado para exportar"
    ensures r.Ok? ==> |r.value| > 0 && r.value[0] == '\U{FEFF}'
  {
    if events == [] then Err("Nenhum dado para exportar")
    else Ok("\U{FEFF}" + Join(CsvLines(events, formatDate), "\n"))
  }

  /** A character in no part and not in the separator is not in the join. */
  lemma {:induction false} JoinAvoids(parts: seq<string>, sep: string, c: char)
    requires c !in sep && forall k :: 0 <= k < |parts| ==> c !in parts[k]
    ensures c !in Join(parts, sep)
  {
    if |parts| > 1 {
      JoinAvoids(parts[1..], sep, c);
    }
  }

  /** No field of the row holds a line break. */
  predicate NoBreaks(row: seq<string>)
  {
    forall k :: 0 <= k < |row| ==> '\n' !in row[k]
  }

  lemma HeaderLineHasNoBreak()
    ensures '\n' !in HeaderLine()
  {
    JoinAvoids(CsvHeaders, ",", '\n');
  }

  lemma {:induction false} RowLinesHaveNoBreak(events: seq<Event>, formatDate: string -> string)
    requires forall i :: 0 <= i < |events| ==> NoBreaks(CsvRow(events[i], formatDate))
    ensures forall j :: 0 <= j < |events| ==> '\n' !in RowLines(events, formatDate)[j]
  {
    forall j | 0 <= j < |events|
      ensures '\n' !in RowLines(events, formatDate)[j]
    {
      RowLinesAt(events, formatDate, j);
      JoinAvoids(CsvRow(events[j], formatDate), ",", '\n');
    }
  }

  /** When no field holds a line break, the export (after its BOM) splits
      back into the header line and one line per event. */
  lemma CsvLineCount(events: seq<Event>, formatDate: string -> string)
    requires events != []
    requires forall i :: 0 <= i < |events| ==> NoBreaks(CsvRow(events[i], formatDate))
    ensures Split(ExportCsv(events, formatDate).value[1..], '\n') == CsvLines(events, formatDate)
    ensures |Split(ExportCsv(events, formatDate).value[1..], '\n')| == |events| + 1
  {
    var lines := CsvLines(events, formatDate);
    CsvLinesHaveNoBreak(events, formatDate);
    SplitJoin(lines, '\n');
    BomDropped(Join(lines, "\n"));
  }

  lemma CsvLinesHaveNoBreak(events: seq<Event>, formatDate: string -> string)
    requires forall i :: 0 <= i < |events| ==> NoBreaks(CsvRow(events[i], formatDate))
    ensures forall j :: 0 <= j < |CsvLines(events, formatDate)| ==> '\n' !in CsvLines(events, formatDate)[j]
  {
    var lines := CsvLines(events, formatDate);
    HeaderLineHasNoBreak();
    RowLinesHaveNoBreak(events, formatDate);
    forall j | 0 <= j < |lines|
      ensures '\n' !in lines[j]
    {
      if j > 0 {
        assert lines[j] == RowLines(events, formatDate)[j - 1];
      }
    }
  }

  lemma BomDropped(text: string)
    ensures ("\U{FEFF}" + text)[1..] == text
  {
  }

  /** The download name: "-filtrado" when a filter is set. */
  function ExportFilename(municipio: string, linguagem: string, isoDate: string): (name: string)
    ensures IsPrefix("eventos-culturais-", name) && IsSuffix(isoDate + ".csv", name)
    ensures |name| == 22 + |isoDate| + (if municipio != "" || linguagem != "" then 9 else 0)
  {
    if municipio != "" || linguagem != "" then "eventos-culturais-filtrado-" + isoDate + ".csv"
    else "eventos-culturais-" + isoDate + ".csv"
  }

  // ----- last and next synchronisation -----

  const MinuteMs: int := 60000
  const HourMs: int := 3600000
  const SyncIntervalMs: int := 6 * 3600000

  /** JavaScript's `%`: the remainder takes the sign of the dividend. */
  function JsRem(a: int, d: int): (r: int)
    requires d > 0
    ensures a >= 0 ==> r == a % d
    ensures a < 0 ==> -d < r <= 0
  {
    if a >= 0 then a % d else -((-a) % d)
  }

  /** Math.floor(ms / 3600000) and Math.floor((ms % 3600000) / 60000);
      Dafny's division by a positive divisor already floors. */
  datatype Span = Span(hours: int, minutes: int)

  function SplitSpan(ms: int): (s: Span)
    ensures ms >= 0 ==> 0 <= s.minutes < 60 && s.hours >= 0
    ensures ms >= 0 ==> s.hours * HourMs + s.minutes * MinuteMs <= ms < s.hours * HourMs + (s.minutes + 1) * MinuteMs
    ensures ms < 0 ==> s.hours < 0 && s.minutes <= 0
  {
    Span(ms / HourMs, JsRem(ms, HourMs) / MinuteMs)
  }

  /** The "last sync" text for `diff` milliseconds since it. */
  function ElapsedText(diff: int): (text: string)
    ensures text == "Agora mesmo" <==> diff < MinuteMs
  {
    var s := SplitSpan(diff);
    if s.hours > 0 then
      var t := "Há " + IntToString(s.hours) + "h" + (if s.minutes > 0 then " " + IntToString(s.minutes) + "m" else "");
      assert t[0] == 'H';
      t
    else if s.minutes > 0 then
      var t := "Há " + IntToString(s.minutes) + "m";
      assert t[0] == 'H';
      t
    else "Agora mesmo"
  }

  /** Under a minute, or a sync time in the future, reads "Agora mesmo";
      under an hour, minutes only; otherwise hours first. */
  lemma ElapsedTextCases(diff: int)
    ensures diff < MinuteMs ==> ElapsedText(diff) == "Agora mesmo"
    ensures MinuteMs <= diff < HourMs ==> ElapsedText(diff) == "Há " + IntToString(diff / MinuteMs) + "m"
    ensures diff >= HourMs ==> IsPrefix("Há " + IntToString(diff / HourMs) + "h", ElapsedText(diff))
  {
    var s := SplitSpan(diff);
    if 0 <= diff < HourMs {
      assert s.hours == 0;
    }
  }

  /** The "next sync" text, shown only while the next run lies ahead. */
  function NextSyncText(diff: int): (r: Option<string>)
    ensures r.Some? <==> diff < SyncIntervalMs
  {
    var next := SyncIntervalMs - diff;
    if next > 0 then
      var s := SplitSpan(next);
      Some("Próxima em " + IntToString(s.hours) + "h " + IntToString(s.minutes) + "m")
    else None
  }

  /** When the last sync is in the past the countdown shows at most 6h 0m,
      and 6h only at the very moment of the sync. */
  lemma NextSyncBounded(diff: int)
    requires 0 <= diff < SyncIntervalMs
    ensures var s := SplitSpan(SyncIntervalMs - diff);
      && 0 <= s.hours <= 6 && 0 <= s.minutes < 60
      && (s.hours == 6 ==> diff == 0 && s.minutes == 0)
  {
  }
}
