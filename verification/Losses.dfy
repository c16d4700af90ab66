/** The loss account: a table that keeps one entry for each kind of loss, however many items
    contributed to it, and is put in code order when it is handed out. */
module Losses {
  import opened Wrappers

  /** An entry of the account, and also one addition to it: a code, a detail and how much. */
  datatype DeclaredLoss = DeclaredLoss(code: string, detail: string, count: u64)

  // ---- Code order

  /** Strings compare by their characters from the left, a proper prefix first. */
  predicate Before(a: string, b: string) {
    b != [] && (a == [] || a[0] < b[0] || (a[0] == b[0] && Before(a[1..], b[1..])))
  }

  lemma {:induction false} OneWay(a: string, b: string)
    ensures !(Before(a, b) && Before(b, a))
    ensures a == b || Before(a, b) || Before(b, a)
  {
    if a != [] && b != [] {
      OneWay(a[1..], b[1..]);
      assert a == [a[0]] + a[1..] && b == [b[0]] + b[1..];
    }
  }

  lemma {:induction false} Chain(a: string, b: string, c: string)
    requires Before(a, b) && Before(b, c)
    ensures Before(a, c)
  {
    if a != [] && a[0] == b[0] == c[0] {
      Chain(a[1..], b[1..], c[1..]);
    }
  }

  /** `a` and `b` are one as far as `k`; there `a` ends first, or has the smaller character. */
  predicate PartsAt(a: string, b: string, k: nat) {
    && k <= |a| && k < |b| && a[..k] == b[..k]
    && (k == |a| || (k < |a| && a[k] < b[k]))
  }

  /** **The order is the strings' own**: decided at the first place they part. */
  lemma {:induction false} BeforeIff(a: string, b: string)
    ensures Before(a, b) <==> exists k :: PartsAt(a, b, k)
  {
    if a != [] && b != [] && a[0] == b[0] {
      BeforeIff(a[1..], b[1..]);
      if k: nat :| PartsAt(a[1..], b[1..], k) {
        assert a[..k + 1] == [a[0]] + a[1..][..k] && b[..k + 1] == [b[0]] + b[1..][..k];
        assert PartsAt(a, b, k + 1);
      }
      if k: nat :| PartsAt(a, b, k) {
        assert k > 0 && a[1..][..k - 1] == a[..k][1..] && b[1..][..k - 1] == b[..k][1..];
        assert PartsAt(a[1..], b[1..], k - 1);
      }
    } else if b != [] {
      assert Before(a, b) ==> PartsAt(a, b, 0);
      if k: nat :| PartsAt(a, b, k) {
        assert k > 0 ==> a[..k][0] == b[..k][0];
      }
    }
  }

  ghost predicate Ascending(entries: seq<DeclaredLoss>) {
    forall i, j | 0 <= i < j < |entries| :: Before(entries[i].code, entries[j].code)
  }

  // ---- What the account stands for: a map from each code to a detail and a total

  function Codes(items: seq<DeclaredLoss>): set<string> {
    set e | e in items :: e.code
  }

  function Total(items: seq<DeclaredLoss>, code: string): nat {
    if items == [] then 0
    else
      var last := items[|items| - 1];
      Total(items[..|items| - 1], code) + if last.code == code then last.count else 0
  }

  function FirstDetail(items: seq<DeclaredLoss>, code: string): string
    requires code in Codes(items)
  {
    if items[0].code == code then items[0].detail else FirstDetail(items[1..], code)
  }

  /** The detail is that of the first addition with the code. */
  lemma {:induction false} FirstDetailIs(items: seq<DeclaredLoss>, code: string) returns (i: nat)
    requires code in Codes(items)
    ensures i < |items| && items[i].code == code && FirstDetail(items, code) == items[i].detail
    ensures forall j | 0 <= j < i :: items[j].code != code
  {
    if items[0].code == code {
      i := 0;
    } else {
      assert items == [items[0]] + items[1..];
      i := FirstDetailIs(items[1..], code);
      i := i + 1;
    }
  }

  /** The total of a code adds up over any cutting of the additions, one by one at the last. */
  lemma {:induction false} TotalConcat(a: seq<DeclaredLoss>, b: seq<DeclaredLoss>, code: string)
    ensures Total(a + b, code) == Total(a, code) + Total(b, code)
    ensures forall x: DeclaredLoss :: Total([x], code) == if x.code == code then x.count else 0
    decreases |b|
  {
    forall x: DeclaredLoss
      ensures Total([x], code) == if x.code == code then x.count else 0
    {
      assert [x][..0] == [];
    }
    if b == [] {
      assert a + b == a;
    } else {
      var t := |b| - 1;
      TotalConcat(a, b[..t], code);
      assert (a + b)[..|a + b| - 1] == a + b[..t];
    }
  }

  ghost predicate Entry(e: DeclaredLoss, items: seq<DeclaredLoss>) {
    && e.code in Codes(items)
    && e.detail == FirstDetail(items, e.code)
    && e.count == Total(items, e.code) % U64_LIMIT
  }

  /** One entry for each code that was added, and nothing else. */
  ghost predicate Describes(entries: seq<DeclaredLoss>, items: seq<DeclaredLoss>) {
    && (forall i, j | 0 <= i < j < |entries| :: entries[i].code != entries[j].code)
    && (forall e <- entries :: Entry(e, items))
    && Codes(items) <= Codes(entries)
  }

  /** The account as it is handed out. */
  ghost predicate IsReport(entries: seq<DeclaredLoss>, items: seq<DeclaredLoss>) {
    Ascending(entries) && Describes(entries, items)
  }

  lemma CodesOfMore(items: seq<DeclaredLoss>, e: DeclaredLoss)
    ensures Codes(items + [e]) == Codes(items) + {e.code}
  {
    forall c <- Codes(items)
      ensures c in Codes(items + [e])
    {
      var x :| x in items && x.code == c;
      assert x in items + [e];
    }
    assert e in items + [e];
  }

  lemma {:induction false} FirstDetailAfter(items: seq<DeclaredLoss>, item: DeclaredLoss, code: string)
    requires code in Codes(items) || code == item.code
    ensures code in Codes(items + [item])
    ensures FirstDetail(items + [item], code)
         == if code in Codes(items) then FirstDetail(items, code) else item.detail
  {
    CodesOfMore(items, item);
    if items != [] && items[0].code != code {
      assert (items + [item])[1..] == items[1..] + [item];
      FirstDetailAfter(items[1..], item, code);
    }
  }

  lemma EntryAfter(e: DeclaredLoss, items: seq<DeclaredLoss>, item: DeclaredLoss)
    requires Entry(e, items)
    ensures e.code != item.code ==> Entry(e, items + [item])
    ensures e.code == item.code ==> Entry(e.(count := (e.count + item.count) % U64_LIMIT), items + [item])
  {
    FirstDetailAfter(items, item, e.code);
    assert (items + [item])[..|items|] == items;
    assert Total(items + [item], e.code)
        == Total(items, e.code) + if item.code == e.code then item.count else 0;
    ModSum(Total(items, e.code), item.count);
  }

  lemma ModSum(a: nat, b: nat)
    ensures (a % U64_LIMIT + b) % U64_LIMIT == (a + b) % U64_LIMIT
  {
    var q := a / U64_LIMIT;
    assert a == q * U64_LIMIT + a % U64_LIMIT;
  }

  lemma {:induction false} NoneTotal(items: seq<DeclaredLoss>, code: string)
    requires code !in Codes(items)
    ensures Total(items, code) == 0
  {
    if items != [] {
      var rest := items[..|items| - 1];
      assert items == rest + [items[|items| - 1]];
      CodesOfMore(rest, items[|items| - 1]);
      NoneTotal(rest, code);
    }
  }

  lemma NewEntry(item: DeclaredLoss, items: seq<DeclaredLoss>)
    requires item.code !in Codes(items)
    ensures Entry(item, items + [item])
  {
    FirstDetailAfter(items, item, item.code);
    assert (items + [item])[..|items|] == items;
    NoneTotal(items, item.code);
  }

  lemma AddedTo(entries: seq<DeclaredLoss>, items: seq<DeclaredLoss>, item: DeclaredLoss, at: nat)
    requires Describes(entries, items) && at < |entries| && entries[at].code == item.code
    ensures var e := entries[at];
      Describes(entries[at := e.(count := (e.count + item.count) % U64_LIMIT)], items + [item])
  {
    var e := entries[at];
    var after := entries[at := e.(count := (e.count + item.count) % U64_LIMIT)];
    CodesOfMore(items, item);
    forall k | 0 <= k < |after|
      ensures Entry(after[k], items + [item])
    {
      EntryAfter(entries[k], items, item);
    }
    CodesKept(entries, at, after[at]);
  }

  lemma CodesKept(entries: seq<DeclaredLoss>, at: nat, e: DeclaredLoss)
    requires at < |entries| && entries[at].code == e.code
    ensures Codes(entries) <= Codes(entries[at := e])
  {
    forall c <- Codes(entries)
      ensures c in Codes(entries[at := e])
    {
      var x :| x in entries && x.code == c;
      var k :| 0 <= k < |entries| && entries[k] == x;
      assert entries[at := e][k] in entries[at := e] && entries[at := e][k].code == c;
    }
  }

  lemma Appended(entries: seq<DeclaredLoss>, items: seq<DeclaredLoss>, item: DeclaredLoss)
    requires Describes(entries, items) && forall e <- entries :: e.code != item.code
    ensures Describes(entries + [item], items + [item])
  {
    assert item.code !in Codes(items);
    NewEntry(item, items);
    forall e <- entries
      ensures Entry(e, items + [item])
    {
      EntryAfter(e, items, item);
    }
    CodesOfMore(items, item);
    CodesOfMore(entries, item);
  }

  class LossAccount {
    var entries: seq<DeclaredLoss>
    /** Every addition so far, in order. */
    ghost var added: seq<DeclaredLoss>

    ghost predicate Valid()
      reads this
    {
      Describes(entries, added)
    }

    constructor ()
      ensures Valid() && entries == [] && added == []
    {
      entries := [];
      added := [];
    }

    method Add(code: string, detail: string, count: u64)
      requires Valid()
      modifies this
      ensures Valid() && added == old(added) + [DeclaredLoss(code, detail, count)]
    {
      ghost var item := DeclaredLoss(code, detail, count);
      var i := 0;
      while i < |entries|
        invariant 0 <= i <= |entries|
        invariant forall k | 0 <= k < i :: entries[k].code != code
      {
        if entries[i].code == code {
          AddedTo(entries, added, item, i);
          entries := entries[i := entries[i].(count := (entries[i].count + count) % U64_LIMIT)];
          added := added + [item];
          return;
        }
        i := i + 1;
      }
      Appended(entries, added, item);
      entries := entries + [DeclaredLoss(code, detail, count)];
      added := added + [item];
    }

    /** A stable sort in place: each entry moves left past those whose code it comes before. */
    method SortByCode()
      requires Valid()
      modifies this`entries
      ensures IsReport(entries, added) && multiset(entries) == multiset(old(entries))
    {
      var sorted := 0;
      while sorted < |entries|
        invariant 0 <= sorted <= |entries|
        invariant multiset(entries) == multiset(old(entries))
        invariant Describes(entries, added) && Ascending(entries[..sorted])
      {
        var at := sorted;
        while at > 0 && Before(entries[sorted].code, entries[at - 1].code)
          invariant 0 <= at <= sorted
          invariant forall k | at <= k < sorted :: Before(entries[sorted].code, entries[k].code)
        {
          at := at - 1;
        }
        MovedDescribes(entries, added, at, sorted);
        MovedAscending(entries, at, sorted);
        entries := Moved(entries, at, sorted);
        sorted := sorted + 1;
      }
      assert entries[..sorted] == entries;
    }

    /** Hands the account out in code order. */
    method IntoEntries() returns (report: seq<DeclaredLoss>)
      requires Valid()
      modifies this`entries
      ensures IsReport(report, added) && multiset(report) == multiset(old(entries))
    {
      SortByCode();
      report := entries;
    }
  }

  function Moved(s: seq<DeclaredLoss>, to: nat, from: nat): seq<DeclaredLoss>
    requires to <= from < |s|
  {
    s[..to] + [s[from]] + s[to..from] + s[from + 1..]
  }

  lemma SameElements(a: seq<DeclaredLoss>, b: seq<DeclaredLoss>)
    requires multiset(a) == multiset(b)
    ensures forall e :: e in a <==> e in b
    ensures Codes(a) == Codes(b) && |a| == |b|
  {
    assert forall e :: e in a <==> e in multiset(a);
    assert forall e :: e in b <==> e in multiset(b);
    assert |multiset(a)| == |a| && |multiset(b)| == |b|;
  }

  lemma MovedPermutes(s: seq<DeclaredLoss>, to: nat, from: nat)
    requires to <= from < |s|
    ensures multiset(Moved(s, to, from)) == multiset(s)
  {
    assert s == s[..to] + s[to..from] + [s[from]] + s[from + 1..];
  }

  lemma MovedDescribes(s: seq<DeclaredLoss>, items: seq<DeclaredLoss>, to: nat, from: nat)
    requires to <= from < |s| && Describes(s, items)
    ensures Describes(Moved(s, to, from), items) && multiset(Moved(s, to, from)) == multiset(s)
  {
    var m := Moved(s, to, from);
    MovedPermutes(s, to, from);
    SameElements(m, s);
    forall i, j | 0 <= i < j < |m|
      ensures m[i].code != m[j].code
    {
      var x := if i < to || i > from then i else if i == to then from else i - 1;
      var y := if j < to || j > from then j else if j == to then from else j - 1;
      assert m[i] == s[x] && m[j] == s[y] && x != y;
    }
  }

  lemma MovedAscending(s: seq<DeclaredLoss>, to: nat, from: nat)
    requires to <= from < |s| && Ascending(s[..from])
    requires forall i, j | 0 <= i < j < |s| :: s[i].code != s[j].code
    requires forall k | to <= k < from :: Before(s[from].code, s[k].code)
    requires to > 0 ==> !Before(s[from].code, s[to - 1].code)
    ensures Ascending(Moved(s, to, from)[..from + 1])
  {
    var m := Moved(s, to, from)[..from + 1];
    forall k | 0 <= k < to
      ensures Before(s[k].code, s[from].code)
    {
      OneWay(s[to - 1].code, s[from].code);
      if k < to - 1 {
        assert Before(s[..from][k].code, s[..from][to - 1].code);
        Chain(s[k].code, s[to - 1].code, s[from].code);
      }
    }
    forall i, j | 0 <= i < j < |m|
      ensures Before(m[i].code, m[j].code)
    {
      var x := if i < to then i else if i == to then from else i - 1;
      var y := if j < to then j else if j == to then from else j - 1;
      assert m[i] == s[x] && m[j] == s[y];
      if x < from && y < from {
        assert Before(s[..from][x].code, s[..from][y].code);
      }
    }
  }

  // ---- Discovery order

  lemma {:induction false} TotalWithout(items: seq<DeclaredLoss>, code: string, at: nat)
    requires at < |items|
    ensures Total(items, code)
         == Total(items[..at] + items[at + 1..], code) + if items[at].code == code then items[at].count else 0
    decreases |items|
  {
    var rest := items[..|items| - 1];
    if at == |items| - 1 {
      assert items[..at] + items[at + 1..] == rest;
    } else {
      TotalWithout(rest, code, at);
      LastKept(items, at);
    }
  }

  lemma LastKept(items: seq<DeclaredLoss>, at: nat)
    requires at < |items| - 1
    ensures var rest := items[..|items| - 1];
      items[..at] + items[at + 1..] == rest[..at] + rest[at + 1..] + [items[|items| - 1]]
  {
  }

  lemma RemovedOnce(b: seq<DeclaredLoss>, at: nat)
    requires at < |b|
    ensures multiset(b[..at] + b[at + 1..]) == multiset(b) - multiset{b[at]}
  {
    assert b == b[..at] + [b[at]] + b[at + 1..];
  }

  /** The total of a code is a function of the multiset of additions. */
  lemma {:induction false} TotalPermuted(a: seq<DeclaredLoss>, b: seq<DeclaredLoss>, code: string)
    requires multiset(a) == multiset(b)
    ensures Total(a, code) == Total(b, code)
    decreases |a|
  {
    SameElements(a, b);
    if a != [] {
      var t := |a| - 1;
      assert a[t] in b;
      var at :| 0 <= at < |b| && b[at] == a[t];
      RemovedOnce(a, t);
      RemovedOnce(b, at);
      assert a[..t] + a[t + 1..] == a[..t];
      TotalPermuted(a[..t], b[..at] + b[at + 1..], code);
      TotalWithout(b, code, at);
    }
  }

  /** Two ascending lists of entries with the same codes, entry for entry alike, are one list. */
  lemma {:induction false} AscendingUnique(a: seq<DeclaredLoss>, b: seq<DeclaredLoss>)
    requires Ascending(a) && Ascending(b) && Codes(a) == Codes(b)
    ensures |a| == |b| && forall k | 0 <= k < |a| :: a[k].code == b[k].code
    decreases |a|
  {
    if a == [] || b == [] {
      assert a != [] ==> a[0].code in Codes(a);
      assert b != [] ==> b[0].code in Codes(b);
    } else {
      assert a[0].code in Codes(b) && b[0].code in Codes(a);
      var x :| x in b && x.code == a[0].code;
      var y :| y in a && y.code == b[0].code;
      OneWay(a[0].code, b[0].code);
      TailCodes(a);
      TailCodes(b);
      AscendingUnique(a[1..], b[1..]);
      assert forall k | 0 < k < |a| :: a[k] == a[1..][k - 1] && b[k] == b[1..][k - 1];
    }
  }

  lemma TailCodes(a: seq<DeclaredLoss>)
    requires Ascending(a) && a != []
    ensures Codes(a[1..]) == Codes(a) - {a[0].code} && Ascending(a[1..])
  {
    forall c <- Codes(a[1..])
      ensures c in Codes(a) && c != a[0].code
    {
      var k :| 0 <= k < |a[1..]| && a[1..][k].code == c;
      assert a[k + 1] in a && Before(a[0].code, a[k + 1].code);
      OneWay(a[0].code, c);
    }
    forall c <- Codes(a) - {a[0].code}
      ensures c in Codes(a[1..])
    {
      var k :| 0 <= k < |a| && a[k].code == c;
      assert a[1..][k - 1].code == c;
      assert a[1..][k - 1] in a[1..];
    }
  }

  lemma ReportCodes(report: seq<DeclaredLoss>, items: seq<DeclaredLoss>)
    requires Describes(report, items)
    ensures Codes(report) == Codes(items)
  {
  }

  /** **The account does not depend on the order of discovery**: permuting the additions leaves the
      codes, their order and their totals; an entry differs only in the detail, and only when the
      first detail given for its code does. */
  lemma OrderDoesNotMatter(a: seq<DeclaredLoss>, ra: seq<DeclaredLoss>, b: seq<DeclaredLoss>, rb: seq<DeclaredLoss>)
    requires IsReport(ra, a) && IsReport(rb, b) && multiset(a) == multiset(b)
    ensures |ra| == |rb|
    ensures forall k | 0 <= k < |ra| :: ra[k].code == rb[k].code && ra[k].count == rb[k].count
    ensures Codes(a) == Codes(b)
    ensures ra == rb <==> forall c <- Codes(a) :: FirstDetail(a, c) == FirstDetail(b, c)
  {
    SameElements(a, b);
    ReportCodes(ra, a);
    ReportCodes(rb, b);
    AscendingUnique(ra, rb);
    forall k | 0 <= k < |ra|
      ensures ra[k].count == rb[k].count && Entry(ra[k], a) && Entry(rb[k], b)
    {
      assert ra[k] in ra && rb[k] in rb;
      TotalPermuted(a, b, ra[k].code);
    }
    if ra == rb {
      forall c <- Codes(a)
        ensures FirstDetail(a, c) == FirstDetail(b, c)
      {
        var k :| 0 <= k < |ra| && ra[k].code == c;
      }
    }
  }

  /** Every code is always added with one and the same detail. */
  ghost predicate OneDetail(items: seq<DeclaredLoss>) {
    forall x, y | x in items && y in items && x.code == y.code :: x.detail == y.detail
  }

  lemma {:induction false} FirstDetailIsOne(items: seq<DeclaredLoss>, code: string)
    requires code in Codes(items)
    ensures exists x :: x in items && x.code == code && x.detail == FirstDetail(items, code)
  {
    if items[0].code != code {
      assert items == [items[0]] + items[1..];
      FirstDetailIsOne(items[1..], code);
      var x :| x in items[1..] && x.code == code && x.detail == FirstDetail(items[1..], code);
      assert x in items;
    } else {
      assert items[0] in items;
    }
  }

  /** An account is the same, details and all, for every order of its additions exactly when no
      code is ever added with two details. */
  lemma SameAccountIff(items: seq<DeclaredLoss>, report: seq<DeclaredLoss>)
    requires IsReport(report, items)
    ensures (forall b | multiset(b) == multiset(items) :: IsReport(report, b)) <==> OneDetail(items)
  {
    if OneDetail(items) {
      forall b | multiset(b) == multiset(items)
        ensures IsReport(report, b)
      {
        SameElements(b, items);
        forall e <- report
          ensures Entry(e, b)
        {
          TotalPermuted(b, items, e.code);
          FirstDetailIsOne(b, e.code);
          FirstDetailIsOne(items, e.code);
        }
      }
    }
    if forall b | multiset(b) == multiset(items) :: IsReport(report, b) {
      forall x <- items
        ensures x.detail == FirstDetail(items, x.code)
      {
        var b := PutFirst(items, x);
        assert IsReport(report, b);
        ReportEntry(report, items, b, x.code);
      }
    }
  }

  lemma FirstOfAll(x: DeclaredLoss, rest: seq<DeclaredLoss>)
    ensures x.code in Codes([x] + rest) && FirstDetail([x] + rest, x.code) == x.detail
  {
    assert ([x] + rest)[0] == x && x in [x] + rest;
  }

  lemma PutFirst(items: seq<DeclaredLoss>, x: DeclaredLoss) returns (b: seq<DeclaredLoss>)
    requires x in items
    ensures multiset(b) == multiset(items) && x.code in Codes(b) && FirstDetail(b, x.code) == x.detail
  {
    var at :| 0 <= at < |items| && items[at] == x;
    var rest := items[..at] + items[at + 1..];
    RemovedOnce(items, at);
    FirstOfAll(x, rest);
    b := [x] + rest;
  }

  /** A code both lists add has one entry, so one first detail. */
  lemma ReportEntry(report: seq<DeclaredLoss>, a: seq<DeclaredLoss>, b: seq<DeclaredLoss>, code: string)
    requires Describes(report, a) && Describes(report, b) && code in Codes(b)
    ensures code in Codes(a) && FirstDetail(a, code) == FirstDetail(b, code)
  {
    assert code in Codes(report);
    var e :| e in report && e.code == code;
    assert Entry(e, a) && Entry(e, b);
  }

  // ---- Nothing is lost

  function Sum(items: seq<DeclaredLoss>): nat {
    if items == [] then 0 else Sum(items[..|items| - 1]) + items[|items| - 1].count
  }

  /** The totals of the given entries' codes, added up. */
  function Totals(entries: seq<DeclaredLoss>, items: seq<DeclaredLoss>): nat {
    if entries == [] then 0
    else Totals(entries[..|entries| - 1], items) + Total(items, entries[|entries| - 1].code)
  }

  lemma {:induction false} TotalsStep(entries: seq<DeclaredLoss>, items: seq<DeclaredLoss>)
    requires items != []
    requires forall i, j | 0 <= i < j < |entries| :: entries[i].code != entries[j].code
    ensures var last := items[|items| - 1];
      Totals(entries, items) == Totals(entries, items[..|items| - 1])
                              + if last.code in Codes(entries) then last.count else 0
  {
    if entries != [] {
      var t := |entries| - 1;
      assert entries == entries[..t] + [entries[t]];
      TotalsStep(entries[..t], items);
      CodesOfMore(entries[..t], entries[t]);
      assert entries[t].code !in Codes(entries[..t]);
    }
  }

  lemma {:induction false} TotalsOfNone(entries: seq<DeclaredLoss>)
    ensures Totals(entries, []) == 0
  {
    if entries != [] {
      TotalsOfNone(entries[..|entries| - 1]);
    }
  }

  lemma {:induction false} TotalsAreAll(entries: seq<DeclaredLoss>, items: seq<DeclaredLoss>)
    requires forall i, j | 0 <= i < j < |entries| :: entries[i].code != entries[j].code
    requires Codes(items) <= Codes(entries)
    ensures Totals(entries, items) == Sum(items)
    decreases |items|
  {
    if items == [] {
      TotalsOfNone(entries);
    } else {
      var t := |items| - 1;
      assert items == items[..t] + [items[t]];
      CodesOfMore(items[..t], items[t]);
      TotalsAreAll(entries, items[..t]);
      TotalsStep(entries, items);
    }
  }

  lemma {:induction false} CountsAgainstTotals(entries: seq<DeclaredLoss>, items: seq<DeclaredLoss>)
    requires forall e <- entries :: Entry(e, items)
    ensures Sum(entries) <= Totals(entries, items)
    ensures Sum(entries) == Totals(entries, items) <==> forall e <- entries :: Total(items, e.code) < U64_LIMIT
    ensures Sum(entries) % U64_LIMIT == Totals(entries, items) % U64_LIMIT
  {
    if entries != [] {
      var t := |entries| - 1;
      var e := entries[t];
      assert entries == entries[..t] + [e];
      CountsAgainstTotals(entries[..t], items);
      var total := Total(items, e.code);
      assert Entry(e, items) && (total < U64_LIMIT <==> e.count == total);
      ModEqual(Sum(entries[..t]), Totals(entries[..t], items), total);
      assert forall x :: x in entries <==> x in entries[..t] || x == e;
    }
  }

  lemma ModEqual(a: nat, b: nat, c: nat)
    requires a % U64_LIMIT == b % U64_LIMIT
    ensures (a + c % U64_LIMIT) % U64_LIMIT == (b + c) % U64_LIMIT
  {
    ModSum(c, a);
    ModSum(a, c);
    ModSum(b, c);
  }

  /** **Conservation**: the account adds up to what was added exactly when no code's total reaches
      2^64; beyond that it is off by a multiple of 2^64, and always too small. */
  lemma SumConserved(items: seq<DeclaredLoss>, report: seq<DeclaredLoss>)
    requires IsReport(report, items)
    ensures Sum(report) == Sum(items) <==> forall c <- Codes(items) :: Total(items, c) < U64_LIMIT
    ensures Sum(report) <= Sum(items) && Sum(report) % U64_LIMIT == Sum(items) % U64_LIMIT
  {
    ReportCodes(report, items);
    TotalsAreAll(report, items);
    CountsAgainstTotals(report, items);
    if forall e <- report :: Total(items, e.code) < U64_LIMIT {
      forall c <- Codes(items)
        ensures Total(items, c) < U64_LIMIT
      {
        var e :| e in report && e.code == c;
      }
    }
  }

  // ---- Inputs on which the two promises fail

  lemma OneEntry(items: seq<DeclaredLoss>, e: DeclaredLoss)
    requires |items| == 2 && items[0].code == items[1].code == e.code && items[0].detail == e.detail
    requires e.count == (items[0].count + items[1].count) % U64_LIMIT
    ensures IsReport([e], items)
  {
    var one := items[..1];
    assert one[..0] == [] && items[..1] == one && one[0] == items[0];
    assert Total(one, e.code) == items[0].count;
    assert Total(items, e.code) == Total(one, e.code) + items[1].count;
    assert items[0] in items && e in [e];
    assert Codes(items) == {e.code};
  }

  /** Two additions with one code and two details: the account depends on which came first. */
  lemma DiscoveryOrderShows()
    returns (a: seq<DeclaredLoss>, b: seq<DeclaredLoss>, ra: seq<DeclaredLoss>, rb: seq<DeclaredLoss>)
    ensures multiset(a) == multiset(b) && IsReport(ra, a) && IsReport(rb, b) && ra != rb
  {
    var x, y := DeclaredLoss("c", "x", 1), DeclaredLoss("c", "y", 1);
    a, b := [x, y], [y, x];
    ra, rb := [x.(count := 2)], [y.(count := 2)];
    OneEntry(a, ra[0]);
    OneEntry(b, rb[0]);
    assert ra[0].detail != rb[0].detail;
  }

  /** One more than 64 bits hold: the account says nothing was lost. */
  lemma SumWrapsAway() returns (items: seq<DeclaredLoss>, report: seq<DeclaredLoss>)
    ensures IsReport(report, items) && Sum(items) == U64_LIMIT && Sum(report) == 0
  {
    items := [DeclaredLoss("c", "x", U64_LIMIT - 1), DeclaredLoss("c", "x", 1)];
    report := [DeclaredLoss("c", "x", 0)];
    OneEntry(items, report[0]);
    assert items[..1][..0] == [] && report[..0] == [];
    assert Sum(items[..1]) == U64_LIMIT - 1;
  }
}
