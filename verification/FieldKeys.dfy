// The keys of a struct's fields (thrift/compiler/cpp/thrifty.cc, from the actions of FieldList and
// FieldIdentifier): explicit ones, and those given out when there is none.
module FieldKeys {
  import opened Options

  const TWO31: int := 0x8000_0000
  const TWO32: int := 0x1_0000_0000

  // A number as an int32_t. An id has 64 bits; y_field_val and the key of a field have 32.
  function Cut(x: int): (r: int)
    ensures Int32(r) && (Int32(x) ==> r == x)
  {
    (x + TWO31) % TWO32 - TWO31
  }

  predicate Int32(x: int) { -TWO31 <= x < TWO31 }

  // A field's id, if it has one, and the list of its xsd_attrs, which is parsed before the field is.
  datatype FieldDef = FieldDef(id: Option<int>, attrs: Attrs)

  datatype Attrs = NoAttrs | Attrs(fields: seq<FieldDef>)

  // exit(1) ends the compiler at the first key that was there before.
  datatype Outcome = Accepted(keys: seq<int>) | Duplicate(key: int)

  // ---------------------------------------------------------------------------
  // t_struct::append (thrift/compiler/cpp/src/parse/t_struct.h)
  // ---------------------------------------------------------------------------

  ghost predicate Increasing(s: seq<int>) {
    forall i, j :: 0 <= i < j < |s| ==> s[i] < s[j]
  }

  // Where equal_range ends in a sorted sequence.
  function UpperBound(s: seq<int>, key: int): (n: nat)
    ensures n <= |s|
    ensures Increasing(s) ==> (forall i :: 0 <= i < n ==> s[i] <= key) && (forall i :: n <= i < |s| ==> key < s[i])
  {
    if s == [] then 0 else if s[|s| - 1] <= key then |s| else UpperBound(s[..|s| - 1], key)
  }

  // Below end everything is smaller than a key that is not there, and above it larger.
  lemma {:induction false} Parted(s: seq<int>, end: nat, key: int)
    requires Increasing(s) && end == UpperBound(s, key) && (end > 0 ==> s[end - 1] != key)
    ensures forall i :: 0 <= i < end ==> s[i] < key
    ensures forall i :: end <= i < |s| ==> key < s[i]
  {
  }

  function Insert(s: seq<int>, end: nat, key: int): (r: seq<int>)
    requires end <= |s|
    ensures |r| == |s| + 1 && r[end] == key
    ensures forall i :: 0 <= i < end ==> r[i] == s[i]
    ensures forall i :: end < i < |r| ==> r[i] == s[i - 1]
  {
    s[..end] + [key] + s[end..]
  }

  lemma {:induction false} Inserted(s: seq<int>, end: nat, key: int)
    requires Increasing(s) && end == UpperBound(s, key) && (end > 0 ==> s[end - 1] != key)
    ensures key !in s && Increasing(Insert(s, end, key))
    ensures forall k :: k in Insert(s, end, key) <==> k in s || k == key
  {
    Parted(s, end, key);
    var r := Insert(s, end, key);
    forall i, j | 0 <= i < j < |r|
      ensures r[i] < r[j]
    {
      InsertedBefore(s, end, key, i, j);
    }
    forall k | k in s
      ensures k in r
    {
      var i :| 0 <= i < |s| && s[i] == k;
      assert r[if i < end then i else i + 1] == k;
    }
  }

  lemma {:induction false} InsertedBefore(s: seq<int>, end: nat, key: int, i: nat, j: nat)
    requires Increasing(s) && end <= |s| && i < j <= |s|
    requires (forall k :: 0 <= k < end ==> s[k] < key) && (forall k :: end <= k < |s| ==> key < s[k])
    ensures Insert(s, end, key)[i] < Insert(s, end, key)[j]
  {
  }

  class Struct {
    var members: seq<int>
    var membersInIdOrder: seq<int>

    ghost predicate Valid()
      reads this
    {
      Distinct(members) && Increasing(membersInIdOrder) && forall k :: k in members <==> k in membersInIdOrder
    }

    constructor ()
      ensures Valid() && members == []
    {
      members, membersInIdOrder := [], [];
    }

    // False, and no longer valid, if the key is there.
    method Append(key: int) returns (ok: bool)
      requires Valid()
      modifies this
      ensures ok <==> key !in old(members)
      ensures members == old(members) + [key] && (ok ==> Valid())
    {
      members := members + [key];
      var end := UpperBound(membersInIdOrder, key);
      if end > 0 && membersInIdOrder[end - 1] == key {
        return false;
      }
      Inserted(membersInIdOrder, end, key);
      membersInIdOrder := Insert(membersInIdOrder, end, key);
      ok := true;
    }
  }

  // ---------------------------------------------------------------------------
  // What keys there will be
  // ---------------------------------------------------------------------------

  // The id that FieldIdentifier gives, and y_field_val behind it.
  function IdFor(allowNeg: bool, id: Option<int>, y: int): (r: (int, int)) {
    if id == None then (y, Cut(y - 1))
    else if id.value > 0 then (id.value, y)
    else if allowNeg then (id.value, Cut(id.value - 1))
    else (y, Cut(y - 1))
  }

  // The key that the field is made with.
  function KeyFor(allowNeg: bool, id: Option<int>, y: int): (r: (int, int)) {
    var (value, y') := IdFor(allowNeg, id, y);
    (Cut(value), y')
  }

  // The rest of a list from field n on, behind keys that it has already; and y_field_val after it.
  function Keys(allowNeg: bool, list: Attrs, n: nat, before: seq<int>, y: int): (r: (Outcome, int))
    requires list.Attrs? && n <= |list.fields|
    decreases list, |list.fields| - n
  {
    if n == |list.fields| then (Accepted(before), y)
    else
      var (key, y1) := KeyFor(allowNeg, list.fields[n].id, y);
      var attrs :=
        if list.fields[n].attrs.NoAttrs? then (Accepted([]), y1)
        else Keys(allowNeg, list.fields[n].attrs, 0, [], -1);
      if attrs.0.Duplicate? then attrs
      else if key in before then (Duplicate(key), attrs.1)
      else Keys(allowNeg, list, n + 1, before + [key], attrs.1)
  }

  function KeysOf(allowNeg: bool, fields: seq<FieldDef>): Outcome {
    Keys(allowNeg, Attrs(fields), 0, [], -1).0
  }

  class Parser {
    var yFieldVal: int
    const allowNegFieldKeys: bool

    constructor (allowNeg: bool)
      ensures allowNegFieldKeys == allowNeg
    {
      allowNegFieldKeys, yFieldVal := allowNeg, 0;
    }

    method FieldIdentifier(id: Option<int>) returns (value: int)
      modifies this
      ensures (value, yFieldVal) == IdFor(allowNegFieldKeys, id, old(yFieldVal))
    {
      if id.Some? {
        if id.value <= 0 {
          if allowNegFieldKeys {
            yFieldVal := Cut(id.value - 1);
            value := id.value;
          } else {
            value, yFieldVal := yFieldVal, Cut(yFieldVal - 1);
          }
        } else {
          value := id.value;
        }
      } else {
        value, yFieldVal := yFieldVal, Cut(yFieldVal - 1);
      }
    }

    method FieldList(list: Attrs) returns (r: Outcome)
      requires list.Attrs?
      modifies this
      ensures (r, yFieldVal) == Keys(allowNegFieldKeys, list, 0, [], -1)
      ensures r.Accepted? ==> Distinct(r.keys)
      decreases list
    {
      yFieldVal := -1;
      var struct_ := new Struct();
      for i := 0 to |list.fields|
        invariant struct_.Valid()
        invariant Keys(allowNegFieldKeys, list, 0, [], -1)
                  == Keys(allowNegFieldKeys, list, i, struct_.members, yFieldVal)
      {
        var value := FieldIdentifier(list.fields[i].id);
        if list.fields[i].attrs.Attrs? {
          var attrs := FieldList(list.fields[i].attrs);
          if attrs.Duplicate? {
            return attrs;
          }
        }
        // t_field takes an int32_t.
        var key := Cut(value);
        var ok := struct_.Append(key);
        if !ok {
          return Duplicate(key);
        }
      }
      r := Accepted(struct_.members);
    }
  }

  // ---------------------------------------------------------------------------
  // Runs of keys
  // ---------------------------------------------------------------------------

  // How far it is from a key down to another one, counting on at the top below the bottom.
  function Down(a: int, b: int): (d: nat)
    ensures d < TWO32
  {
    (a - b) % TWO32
  }

  lemma {:induction false} DownIs(a: int, b: int, d: nat)
    requires d < TWO32
    ensures Down(a, b) == d <==> Cut(b) == Cut(a - d)
  {
    SameRest(a - b, d);
    SameRest(b + TWO31, a - d + TWO31);
  }

  lemma {:induction false} SameRest(a: int, b: int)
    ensures a % TWO32 == b % TWO32 <==> (a - b) % TWO32 == 0
  {
    var p, q, r := a / TWO32, b / TWO32, (a - b) / TWO32;
    assert a == p * TWO32 + a % TWO32 && b == q * TWO32 + b % TWO32 && a - b == r * TWO32 + (a - b) % TWO32;
    assert (a - b) % TWO32 == a % TWO32 - b % TWO32 + (p - q - r) * TWO32;
  }

  // Keys that are given out one after another: first, first - 1, ...
  datatype Run = Run(first: int, count: nat) {
    function Next(): int { Cut(first - count) }

    predicate Has(key: int) { Down(first, key) < count }

    predicate Meets(r: Run) { 0 < count && 0 < r.count && (Has(r.first) || r.Has(first)) }
  }

  // Runs meet if there is a key in both.
  lemma {:induction false} RunsMeet(r: Run, s: Run)
    ensures r.Meets(s) <==> exists key :: r.Has(key) && s.Has(key)
  {
    if r.Meets(s) {
      var key := if r.Has(s.first) then s.first else r.first;
      assert r.Has(key) && s.Has(key);
    }
    if key :| r.Has(key) && s.Has(key) {
      DownDown(r.first, s.first, key);
    }
  }

  lemma {:induction false} DownDown(a: int, b: int, key: int)
    ensures Down(b, a) == Down(b, key) - Down(a, key) || Down(a, b) == Down(a, key) - Down(b, key)
  {
    var i, j := Down(a, key), Down(b, key);
    SameRest(a - key, i);
    SameRest(b - key, j);
    if i <= j {
      Minus(b - key, j, a - key, i);
    } else {
      Minus(a - key, i, b - key, j);
    }
  }

  lemma {:induction false} Minus(x: int, i: nat, y: int, j: nat)
    requires x % TWO32 == i && y % TWO32 == j && j <= i
    ensures (x - y) % TWO32 == i - j
  {
    var p, q := x / TWO32, y / TWO32;
    assert x - y == (p - q) * TWO32 + (i - j);
    SameRest(x - y, i - j);
    assert (x - y - (i - j)) % TWO32 == 0 by {
      assert x - y - (i - j) == (p - q) * TWO32;
    }
  }

  lemma {:induction false} HasSame(r: Run, k: int, l: int)
    requires Cut(k) == Cut(l)
    ensures r.Has(k) <==> r.Has(l)
  {
    DownIs(r.first, k, Down(r.first, k));
    DownIs(r.first, l, Down(r.first, k));
  }

  // A run that is one longer meets what it met, and what its new key is in.
  lemma {:induction false} MeetsLonger(s: Run, r: Run)
    requires r.count < TWO32
    ensures var r' := Run(r.first, r.count + 1);
            && (forall key :: r'.Has(key) <==> r.Has(key) || Cut(key) == r.Next())
            && (s.Meets(r') <==> s.Meets(r) || s.Has(r.Next()))
  {
    var r' := Run(r.first, r.count + 1);
    forall key
      ensures r'.Has(key) <==> r.Has(key) || Cut(key) == r.Next()
    {
      DownIs(r.first, key, r.count);
    }
    RunsMeet(s, r);
    RunsMeet(s, r');
    if key :| s.Has(key) && r'.Has(key) && !r.Has(key) {
      HasSame(s, key, r.Next());
    }
    if s.Has(r.Next()) {
      assert s.Has(r.Next()) && r'.Has(r.Next());
    }
  }

  // No run meets another, or itself.
  ghost predicate Apart(runs: seq<Run>) {
    && (forall i {:trigger runs[i].count} :: 0 <= i < |runs| ==> runs[i].count <= TWO32)
    && (forall i, j {:trigger runs[i].Meets(runs[j])} :: 0 <= i < j < |runs| ==> !runs[i].Meets(runs[j]))
  }

  ghost predicate Covers(runs: seq<Run>, key: int) {
    exists i {:trigger runs[i].Has(key)} :: 0 <= i < |runs| && runs[i].Has(key)
  }

  function Last(runs: seq<Run>): Run
    requires runs != []
  {
    runs[|runs| - 1]
  }

  function Longer(runs: seq<Run>): (r: seq<Run>)
    requires runs != []
  {
    runs[|runs| - 1 := Run(Last(runs).first, Last(runs).count + 1)]
  }

  lemma {:induction false} ApartFront(runs: seq<Run>, r: Run)
    ensures Apart(runs + [r]) <==>
            Apart(runs) && r.count <= TWO32 && forall i :: 0 <= i < |runs| ==> !runs[i].Meets(r)
  {
    var runs' := runs + [r];
    assert forall i :: 0 <= i < |runs| ==> runs'[i] == runs[i];
    assert runs'[|runs|] == r;
    if Apart(runs') {
      assert runs'[|runs|].count <= TWO32;
      forall i | 0 <= i < |runs|
        ensures runs[i].count <= TWO32
      {
        assert runs'[i].count <= TWO32;
      }
      forall i, j | 0 <= i < j < |runs|
        ensures !runs[i].Meets(runs[j])
      {
        assert !runs'[i].Meets(runs'[j]);
      }
      forall i | 0 <= i < |runs|
        ensures !runs[i].Meets(r)
      {
        assert !runs'[i].Meets(runs'[|runs|]);
      }
    }
  }

  lemma {:induction false} CoversFront(runs: seq<Run>, r: Run, key: int)
    ensures Covers(runs + [r], key) <==> Covers(runs, key) || r.Has(key)
  {
    var runs' := runs + [r];
    if i :| 0 <= i < |runs| && runs[i].Has(key) {
      assert runs'[i].Has(key);
    }
    if r.Has(key) {
      assert runs'[|runs|].Has(key);
    }
  }

  lemma {:induction false} Front(runs: seq<Run>)
    requires runs != []
    ensures runs == runs[..|runs| - 1] + [Last(runs)]
    ensures Longer(runs) == runs[..|runs| - 1] + [Run(Last(runs).first, Last(runs).count + 1)]
  {
  }

  lemma {:induction false} LongerApart(runs: seq<Run>)
    requires runs != []
    ensures Apart(Longer(runs)) <==> Apart(runs) && !Covers(runs, Last(runs).Next())
    ensures forall key :: Int32(key) ==> (Covers(Longer(runs), key) <==> Covers(runs, key) || key == Last(runs).Next())
  {
    var front, r := runs[..|runs| - 1], Last(runs);
    var r' := Run(r.first, r.count + 1);
    Front(runs);
    ApartFront(front, r);
    ApartFront(front, r');
    CoversFront(front, r, r.Next());
    if r.count < TWO32 {
      DownIs(r.first, r.Next(), r.count);
      forall i | 0 <= i < |front|
        ensures front[i].Meets(r') <==> front[i].Meets(r) || front[i].Has(r.Next())
      {
        MeetsLonger(front[i], r);
      }
      MeetsLonger(r, r);
    }
    forall key | Int32(key)
      ensures Covers(Longer(runs), key) <==> Covers(runs, key) || key == r.Next()
    {
      CoversFront(front, r, key);
      CoversFront(front, r', key);
    }
  }

  lemma {:induction false} MoreApart(runs: seq<Run>, r: Run)
    requires r.count <= 1 && Int32(r.first)
    ensures Apart(runs + [r]) <==> Apart(runs) && (r.count == 1 ==> !Covers(runs, r.first))
    ensures forall key :: Int32(key) ==>
              (Covers(runs + [r], key) <==> Covers(runs, key) || (r.count == 1 && key == r.first))
  {
    ApartFront(runs, r);
    forall i | 0 <= i < |runs|
      ensures runs[i].Meets(r) <==> r.count == 1 && runs[i].Has(r.first)
    {
      OneKey(r);
      RunsMeet(runs[i], r);
      if r.count == 1 {
        if key :| runs[i].Has(key) && r.Has(key) {
          HasSame(runs[i], key, r.first);
        }
        assert r.Has(r.first);
      }
    }
    forall key | Int32(key)
      ensures Covers(runs + [r], key) <==> Covers(runs, key) || (r.count == 1 && key == r.first)
    {
      OneKey(r);
      CoversFront(runs, r, key);
    }
  }

  lemma {:induction false} OneKey(r: Run)
    requires r.count <= 1
    ensures forall key :: r.Has(key) <==> r.count == 1 && Cut(key) == Cut(r.first)
  {
    forall key
      ensures r.Has(key) <==> r.count == 1 && Cut(key) == Cut(r.first)
    {
      DownIs(r.first, key, 0);
    }
  }

  // ---------------------------------------------------------------------------
  // When a list is accepted
  // ---------------------------------------------------------------------------

  predicate Explicit(f: FieldDef) { f.id.Some? && f.id.value > 0 }

  // The key of an explicit positive id.
  function ExplicitKey(f: FieldDef): int
    requires Explicit(f)
  {
    Cut(f.id.value)
  }

  // The runs of the first n fields. One begins at -1, one behind each list of xsd_attrs, where that has
  // left the counter, and, if it is allowed, one at each explicit id that is not positive.
  function Runs(allowNeg: bool, list: Attrs, n: nat): (runs: seq<Run>)
    requires list.Attrs? && n <= |list.fields|
    ensures runs != []
    decreases list, n
  {
    if n == 0 then [Run(-1, 0)]
    else
      var field, runs := list.fields[n - 1], WithKey(allowNeg, list.fields[n - 1], Runs(allowNeg, list, n - 1));
      if field.attrs.NoAttrs? then runs else runs + [Run(Counter(allowNeg, field.attrs), 0)]
  }

  function WithKey(allowNeg: bool, field: FieldDef, runs: seq<Run>): (r: seq<Run>)
    requires runs != []
    ensures r != []
  {
    if Explicit(field) then runs
    else if allowNeg && field.id.Some? then runs + [Run(Cut(field.id.value), 1)]
    else Longer(runs)
  }

  // y_field_val behind a list.
  function Counter(allowNeg: bool, list: Attrs): int
    requires list.Attrs?
    decreases list, |list.fields| + 1
  {
    Last(Runs(allowNeg, list, |list.fields|)).Next()
  }

  ghost predicate ExplicitDistinct(fields: seq<FieldDef>, n: nat)
    requires n <= |fields|
  {
    forall i, j {:trigger ExplicitKey(fields[i]), ExplicitKey(fields[j])} ::
      0 <= i < j < n && Explicit(fields[i]) && Explicit(fields[j]) ==> ExplicitKey(fields[i]) != ExplicitKey(fields[j])
  }

  // Of the first n fields, no two explicit keys and no two runs meet, and no explicit key is in a run.
  ghost predicate Clear(fields: seq<FieldDef>, n: nat, runs: seq<Run>)
    requires n <= |fields|
  {
    && ExplicitDistinct(fields, n) && Apart(runs)
    && forall i :: 0 <= i < n && Explicit(fields[i]) ==> !Covers(runs, ExplicitKey(fields[i]))
  }

  // The same of all the fields of a list, and in the lists inside it.
  ghost predicate AllApart(allowNeg: bool, list: Attrs)
    requires list.Attrs?
    decreases list
  {
    && Clear(list.fields, |list.fields|, Runs(allowNeg, list, |list.fields|))
    && forall i :: 0 <= i < |list.fields| ==> list.fields[i].attrs.NoAttrs? || AllApart(allowNeg, list.fields[i].attrs)
  }

  ghost predicate ExplicitAt(fields: seq<FieldDef>, n: nat, key: int)
    requires n <= |fields|
  {
    exists i :: 0 <= i < n && Explicit(fields[i]) && ExplicitKey(fields[i]) == key
  }

  // The keys of the first n fields.
  ghost predicate Given(allowNeg: bool, list: Attrs, n: nat, key: int)
    requires list.Attrs? && n <= |list.fields|
  {
    Int32(key) && (ExplicitAt(list.fields, n, key) || Covers(Runs(allowNeg, list, n), key))
  }

  // The key that field n gets, and the counter behind its identifier.
  function NextKey(allowNeg: bool, list: Attrs, n: nat): (int, int)
    requires list.Attrs? && n < |list.fields|
  {
    KeyFor(allowNeg, list.fields[n].id, Last(Runs(allowNeg, list, n)).Next())
  }

  // The keys of the first n fields in turn.
  function KeysUpTo(allowNeg: bool, list: Attrs, n: nat): seq<int>
    requires list.Attrs? && n <= |list.fields|
  {
    if n == 0 then [] else KeysUpTo(allowNeg, list, n - 1) + [NextKey(allowNeg, list, n - 1).0]
  }

  // One field's key more, before its xsd_attrs.
  lemma {:induction false} KeyAdded(allowNeg: bool, field: FieldDef, runs: seq<Run>)
    requires runs != []
    ensures var (key, y), runs' := KeyFor(allowNeg, field.id, Last(runs).Next()), WithKey(allowNeg, field, runs);
            && Last(runs').Next() == y && Int32(key) && (Explicit(field) ==> key == ExplicitKey(field) && runs' == runs)
            && (!Explicit(field) ==>
                  && (Apart(runs') <==> Apart(runs) && !Covers(runs, key))
                  && (forall k :: Int32(k) ==> (Covers(runs', k) <==> Covers(runs, k) || k == key)))
  {
    if Explicit(field) {
    } else if allowNeg && field.id.Some? {
      MoreApart(runs, Run(Cut(field.id.value), 1));
      CutBefore(field.id.value, 1);
    } else {
      LongerApart(runs);
      CutBefore(Last(runs).first - Last(runs).count, 1);
    }
  }

  lemma {:induction false} CutBefore(x: int, d: int)
    ensures Cut(Cut(x) - d) == Cut(x - d)
  {
    SameRest(Cut(x) - d + TWO31, x - d + TWO31);
    var q := (x + TWO31) / TWO32;
    assert Cut(x) - x == -q * TWO32;
  }

  lemma {:induction false} ExplicitNext(fields: seq<FieldDef>, n: nat)
    requires n < |fields|
    ensures ExplicitDistinct(fields, n + 1) <==>
            ExplicitDistinct(fields, n) && (Explicit(fields[n]) ==> !ExplicitAt(fields, n, ExplicitKey(fields[n])))
    ensures forall key :: ExplicitAt(fields, n + 1, key) <==>
                          ExplicitAt(fields, n, key) || (Explicit(fields[n]) && key == ExplicitKey(fields[n]))
  {
    forall key
      ensures ExplicitAt(fields, n + 1, key) <==>
              ExplicitAt(fields, n, key) || (Explicit(fields[n]) && key == ExplicitKey(fields[n]))
    {
      if Explicit(fields[n]) && key == ExplicitKey(fields[n]) {
        assert ExplicitKey(fields[n]) == key;
      }
    }
  }

  // A field's key is new exactly if all is clear with one field more.
  lemma {:induction false} ClearNext(fields: seq<FieldDef>, n: nat, runs: seq<Run>, runs': seq<Run>, key: int)
    requires n < |fields| && Int32(key)
    requires if Explicit(fields[n]) then key == ExplicitKey(fields[n]) && runs' == runs
             else
               && (Apart(runs') <==> Apart(runs) && !Covers(runs, key))
               && (forall k :: Int32(k) ==> (Covers(runs', k) <==> Covers(runs, k) || k == key))
    ensures Clear(fields, n + 1, runs') <==>
            Clear(fields, n, runs) && !ExplicitAt(fields, n, key) && !Covers(runs, key)
    ensures forall k :: Int32(k) ==>
              (ExplicitAt(fields, n + 1, k) || Covers(runs', k) <==>
                ExplicitAt(fields, n, k) || Covers(runs, k) || k == key)
  {
    ExplicitNext(fields, n);
    if !Explicit(fields[n]) && ExplicitAt(fields, n, key) {
      var i :| 0 <= i < n && Explicit(fields[i]) && ExplicitKey(fields[i]) == key;
      assert Covers(runs', key);
    }
  }

  // An empty run changes nothing.
  lemma {:induction false} EmptyRun(fields: seq<FieldDef>, n: nat, runs: seq<Run>, first: int)
    requires n <= |fields| && Int32(first)
    ensures Clear(fields, n, runs + [Run(first, 0)]) <==> Clear(fields, n, runs)
    ensures forall key :: Int32(key) ==> (Covers(runs + [Run(first, 0)], key) <==> Covers(runs, key))
  {
    MoreApart(runs, Run(first, 0));
  }

  lemma {:induction false} NewKey(allowNeg: bool, list: Attrs, n: nat)
    requires list.Attrs? && n < |list.fields|
    ensures Clear(list.fields, n + 1, Runs(allowNeg, list, n + 1)) <==>
            Clear(list.fields, n, Runs(allowNeg, list, n)) && !Given(allowNeg, list, n, NextKey(allowNeg, list, n).0)
    ensures var field := list.fields[n];
            Last(Runs(allowNeg, list, n + 1)).Next()
            == if field.attrs.Attrs? then Counter(allowNeg, field.attrs) else NextKey(allowNeg, list, n).1
  {
    var field, runs := list.fields[n], Runs(allowNeg, list, n);
    var runs' := WithKey(allowNeg, field, runs);
    KeyAdded(allowNeg, field, runs);
    ClearNext(list.fields, n, runs, runs', NextKey(allowNeg, list, n).0);
    if field.attrs.Attrs? {
      EmptyRun(list.fields, n + 1, runs', Counter(allowNeg, field.attrs));
    }
  }

  lemma {:induction false} KeyGiven(allowNeg: bool, list: Attrs, n: nat, k: int)
    requires list.Attrs? && n < |list.fields|
    ensures Given(allowNeg, list, n + 1, k) <==> Given(allowNeg, list, n, k) || k == NextKey(allowNeg, list, n).0
  {
    var field, runs := list.fields[n], Runs(allowNeg, list, n);
    var runs' := WithKey(allowNeg, field, runs);
    KeyAdded(allowNeg, field, runs);
    ClearNext(list.fields, n, runs, runs', NextKey(allowNeg, list, n).0);
    assert Int32(k) ==> (Covers(runs', k) <==> Covers(Runs(allowNeg, list, n + 1), k)) by {
      if field.attrs.Attrs? {
        EmptyRun(list.fields, n + 1, runs', Counter(allowNeg, field.attrs));
      }
    }
  }

  // What is not clear among the first fields is not clear with all of them.
  lemma {:induction false} StaysMet(allowNeg: bool, list: Attrs, n: nat)
    requires list.Attrs? && n <= |list.fields| && !Clear(list.fields, n, Runs(allowNeg, list, n))
    ensures !AllApart(allowNeg, list)
    decreases |list.fields| - n
  {
    if n < |list.fields| {
      NewKey(allowNeg, list, n);
      StaysMet(allowNeg, list, n + 1);
    }
  }

  lemma {:induction false} KeysAreGiven(allowNeg: bool, list: Attrs, n: nat, key: int)
    requires list.Attrs? && n <= |list.fields|
    ensures key in KeysUpTo(allowNeg, list, n) <==> Given(allowNeg, list, n, key)
  {
    if n == 0 {
      NothingGiven(allowNeg, list);
    } else {
      KeysAreGiven(allowNeg, list, n - 1, key);
      NextIsGiven(allowNeg, list, n - 1, key);
    }
  }

  lemma {:induction false} NextIsGiven(allowNeg: bool, list: Attrs, n: nat, key: int)
    requires list.Attrs? && n < |list.fields|
    requires key in KeysUpTo(allowNeg, list, n) <==> Given(allowNeg, list, n, key)
    ensures key in KeysUpTo(allowNeg, list, n + 1) <==> Given(allowNeg, list, n + 1, key)
  {
    KeyGiven(allowNeg, list, n, key);
    KeysUpToNext(allowNeg, list, n, key);
  }

  lemma {:induction false} KeysUpToNext(allowNeg: bool, list: Attrs, n: nat, key: int)
    requires list.Attrs? && n < |list.fields|
    ensures KeysUpTo(allowNeg, list, n + 1) == KeysUpTo(allowNeg, list, n) + [NextKey(allowNeg, list, n).0]
    ensures key in KeysUpTo(allowNeg, list, n + 1) <==>
            key in KeysUpTo(allowNeg, list, n) || key == NextKey(allowNeg, list, n).0
  {
  }

  lemma {:induction false} NothingGiven(allowNeg: bool, list: Attrs)
    requires list.Attrs?
    ensures Clear(list.fields, 0, Runs(allowNeg, list, 0)) && Last(Runs(allowNeg, list, 0)).Next() == -1
    ensures forall key :: !Given(allowNeg, list, 0, key)
  {
  }

  lemma {:induction false} KeyMeets(allowNeg: bool, list: Attrs, n: nat)
    requires list.Attrs? && n < |list.fields| && NextKey(allowNeg, list, n).0 in KeysUpTo(allowNeg, list, n)
    ensures !AllApart(allowNeg, list)
  {
    KeysAreGiven(allowNeg, list, n, NextKey(allowNeg, list, n).0);
    NewKey(allowNeg, list, n);
    StaysMet(allowNeg, list, n + 1);
  }

  // The first n fields are clear, with the lists in them.
  ghost predicate ApartUpTo(allowNeg: bool, list: Attrs, n: nat)
    requires list.Attrs? && n <= |list.fields|
  {
    && Clear(list.fields, n, Runs(allowNeg, list, n))
    && forall i :: 0 <= i < n ==> list.fields[i].attrs.NoAttrs? || AllApart(allowNeg, list.fields[i].attrs)
  }

  lemma {:induction false} ApartNext(allowNeg: bool, list: Attrs, n: nat)
    requires list.Attrs? && n < |list.fields| && NextKey(allowNeg, list, n).0 !in KeysUpTo(allowNeg, list, n)
    requires ApartUpTo(allowNeg, list, n) && (list.fields[n].attrs.NoAttrs? || AllApart(allowNeg, list.fields[n].attrs))
    ensures ApartUpTo(allowNeg, list, n + 1)
  {
    KeysAreGiven(allowNeg, list, n, NextKey(allowNeg, list, n).0);
    NewKey(allowNeg, list, n);
  }

  // The outcome for a list, if it is accepted: its keys, and the counter behind it.
  function Behind(allowNeg: bool, list: Attrs): (Outcome, int)
    requires list.Attrs?
  {
    (Accepted(KeysUpTo(allowNeg, list, |list.fields|)), Counter(allowNeg, list))
  }

  // What becomes of field n.
  lemma {:induction false} NextAccepted(allowNeg: bool, list: Attrs, n: nat)
    requires list.Attrs? && n < |list.fields|
    requires var attrs := list.fields[n].attrs;
             attrs.Attrs? ==>
               if AllApart(allowNeg, attrs) then Keys(allowNeg, attrs, 0, [], -1) == Behind(allowNeg, attrs)
               else Keys(allowNeg, attrs, 0, [], -1).0.Duplicate?
    ensures var attrs, before := list.fields[n].attrs, KeysUpTo(allowNeg, list, n);
            var r := Keys(allowNeg, list, n, before, Last(Runs(allowNeg, list, n)).Next());
            if (attrs.Attrs? && !AllApart(allowNeg, attrs)) || NextKey(allowNeg, list, n).0 in before
                then r.0.Duplicate?
            else r == Keys(allowNeg, list, n + 1, KeysUpTo(allowNeg, list, n + 1),
                           Last(Runs(allowNeg, list, n + 1)).Next())
  {
    NewKey(allowNeg, list, n);
  }

  // From field n on the list is accepted exactly if all is apart in it.
  ghost predicate Right(allowNeg: bool, list: Attrs, n: nat)
    requires list.Attrs? && n <= |list.fields|
  {
    var r := Keys(allowNeg, list, n, KeysUpTo(allowNeg, list, n), Last(Runs(allowNeg, list, n)).Next());
    if AllApart(allowNeg, list) then r == Behind(allowNeg, list) else r.0.Duplicate?
  }

  // Field n and the list in it are accepted.
  ghost predicate GoesOn(allowNeg: bool, list: Attrs, n: nat)
    requires list.Attrs? && n < |list.fields|
  {
    && (list.fields[n].attrs.NoAttrs? || AllApart(allowNeg, list.fields[n].attrs))
    && NextKey(allowNeg, list, n).0 !in KeysUpTo(allowNeg, list, n)
  }

  lemma {:induction false} RightBefore(allowNeg: bool, list: Attrs, n: nat)
    requires list.Attrs? && n < |list.fields|
    requires var attrs := list.fields[n].attrs;
             attrs.Attrs? ==>
               if AllApart(allowNeg, attrs) then Keys(allowNeg, attrs, 0, [], -1) == Behind(allowNeg, attrs)
               else Keys(allowNeg, attrs, 0, [], -1).0.Duplicate?
    requires GoesOn(allowNeg, list, n) ==> Right(allowNeg, list, n + 1)
    ensures Right(allowNeg, list, n)
  {
    NextAccepted(allowNeg, list, n);
    if list.fields[n].attrs.NoAttrs? || AllApart(allowNeg, list.fields[n].attrs) {
      if NextKey(allowNeg, list, n).0 in KeysUpTo(allowNeg, list, n) {
        KeyMeets(allowNeg, list, n);
      }
    }
  }

  lemma {:induction false} RightAtEnd(allowNeg: bool, list: Attrs)
    requires list.Attrs? && ApartUpTo(allowNeg, list, |list.fields|)
    ensures Right(allowNeg, list, |list.fields|)
  {
    assert AllApart(allowNeg, list);
  }

  lemma {:induction false} AcceptedFrom(allowNeg: bool, list: Attrs, n: nat)
    requires list.Attrs? && n <= |list.fields| && ApartUpTo(allowNeg, list, n)
    ensures Right(allowNeg, list, n)
    decreases list, |list.fields| - n
  {
    if n == |list.fields| {
      RightAtEnd(allowNeg, list);
    } else {
      if list.fields[n].attrs.Attrs? {
        AcceptedAll(allowNeg, list.fields[n].attrs);
      }
      if GoesOn(allowNeg, list, n) {
        ApartNext(allowNeg, list, n);
        AcceptedFrom(allowNeg, list, n + 1);
      }
      RightBefore(allowNeg, list, n);
    }
  }

  lemma {:induction false} AcceptedAll(allowNeg: bool, list: Attrs)
    requires list.Attrs?
    ensures var r := Keys(allowNeg, list, 0, [], -1);
            if AllApart(allowNeg, list) then r == Behind(allowNeg, list) else r.0.Duplicate?
    decreases list, |list.fields| + 1
  {
    NothingGiven(allowNeg, list);
    AcceptedFrom(allowNeg, list, 0);
  }

  // A list is accepted exactly if no two explicit keys and no two runs meet, and no explicit key is in a
  // run, in it and in those inside it; its fields then have the keys said, which are all of these.
  lemma {:induction false} ListAccepted(allowNeg: bool, fields: seq<FieldDef>)
    ensures var r, keys := KeysOf(allowNeg, fields), KeysUpTo(allowNeg, Attrs(fields), |fields|);
            && (if AllApart(allowNeg, Attrs(fields)) then r == Accepted(keys) else r.Duplicate?)
            && forall key :: key in keys <==> Given(allowNeg, Attrs(fields), |fields|, key)
  {
    AcceptedAll(allowNeg, Attrs(fields));
    forall key
      ensures key in KeysUpTo(allowNeg, Attrs(fields), |fields|) <==> Given(allowNeg, Attrs(fields), |fields|, key)
    {
      KeysAreGiven(allowNeg, Attrs(fields), |fields|, key);
    }
  }

  // ---------------------------------------------------------------------------
  // Keys that need no cutting
  // ---------------------------------------------------------------------------

  // The explicit ids are int32_t numbers, and the counter stays above the least of these.
  ghost predicate Narrow(allowNeg: bool, list: Attrs)
    requires list.Attrs?
    decreases list
  {
    && (forall i :: 0 <= i < |list.fields| && Explicit(list.fields[i]) ==> Int32(list.fields[i].id.value))
    && (forall r :: r in Runs(allowNeg, list, |list.fields|) ==> NarrowRun(r))
    && forall i :: 0 <= i < |list.fields| ==> list.fields[i].attrs.NoAttrs? || Narrow(allowNeg, list.fields[i].attrs)
  }

  predicate NarrowRun(r: Run) { -TWO31 <= r.first - r.count && r.first <= 0 }

  // Runs by their bounds, and ids as they are.
  ghost predicate NarrowApart(allowNeg: bool, list: Attrs)
    requires list.Attrs?
    decreases list
  {
    var fields, runs := list.fields, Runs(allowNeg, list, |list.fields|);
    && IdsDistinct(fields)
    && (forall i, j :: 0 <= i < j < |runs| ==> !Overlap(runs[i], runs[j]))
    && forall i :: 0 <= i < |fields| ==> fields[i].attrs.NoAttrs? || NarrowApart(allowNeg, fields[i].attrs)
  }

  ghost predicate IdsDistinct(fields: seq<FieldDef>) {
    forall i, j :: 0 <= i < j < |fields| && Explicit(fields[i]) && Explicit(fields[j]) ==>
      fields[i].id.value != fields[j].id.value
  }

  predicate Overlap(r: Run, s: Run) {
    0 < r.count && 0 < s.count && s.first - s.count < r.first && r.first - r.count < s.first
  }

  lemma {:induction false} NarrowHas(r: Run, key: int)
    requires NarrowRun(r) && Int32(key)
    ensures r.Has(key) <==> r.first - r.count < key <= r.first
  {
    if key <= r.first {
      SameRest(r.first - key, r.first - key);
    } else {
      assert Down(r.first, key) == r.first - key + TWO32 by {
        SameRest(r.first - key, r.first - key + TWO32);
      }
    }
  }

  lemma {:induction false} NarrowMeets(r: Run, s: Run)
    requires NarrowRun(r) && NarrowRun(s)
    ensures r.Meets(s) <==> Overlap(r, s)
  {
    if 0 < r.count && 0 < s.count {
      NarrowHas(r, s.first);
      NarrowHas(s, r.first);
    }
  }

  // Then no explicit key can meet a run.
  lemma {:induction false} NarrowAllApart(allowNeg: bool, list: Attrs)
    requires list.Attrs? && Narrow(allowNeg, list)
    ensures AllApart(allowNeg, list) <==> NarrowApart(allowNeg, list)
    decreases list
  {
    var fields, runs := list.fields, Runs(allowNeg, list, |list.fields|);
    forall i, j | 0 <= i < j < |runs|
      ensures runs[i].Meets(runs[j]) <==> Overlap(runs[i], runs[j])
    {
      NarrowMeets(runs[i], runs[j]);
    }
    forall i, j | 0 <= i < |fields| && Explicit(fields[i]) && 0 <= j < |runs|
      ensures !runs[j].Has(ExplicitKey(fields[i])) && ExplicitKey(fields[i]) == fields[i].id.value
    {
      assert runs[j] in runs;
      NarrowHas(runs[j], fields[i].id.value);
    }
    forall i | 0 <= i < |fields| && fields[i].attrs.Attrs?
      ensures AllApart(allowNeg, fields[i].attrs) <==> NarrowApart(allowNeg, fields[i].attrs)
    {
      NarrowAllApart(allowNeg, fields[i].attrs);
    }
    assert forall j :: 0 <= j < |runs| ==> runs[j] in runs;
  }

  // A list whose keys need no cutting is accepted exactly if no two explicit positive ids are the same and
  // no two runs overlap, in it and in those inside it.
  lemma {:induction false} NarrowAccepted(allowNeg: bool, fields: seq<FieldDef>)
    requires Narrow(allowNeg, Attrs(fields))
    ensures KeysOf(allowNeg, fields).Accepted? <==> NarrowApart(allowNeg, Attrs(fields))
  {
    ListAccepted(allowNeg, fields);
    NarrowAllApart(allowNeg, Attrs(fields));
  }

  // ---------------------------------------------------------------------------
  // Lists without xsd_attrs and without negative keys
  // ---------------------------------------------------------------------------

  ghost predicate Flat(fields: seq<FieldDef>) {
    forall i :: 0 <= i < |fields| ==> fields[i].attrs == NoAttrs
  }

  // How many of the first n fields have no explicit positive id.
  function Automatic(fields: seq<FieldDef>, n: nat): (m: nat)
    requires n <= |fields|
    ensures m <= n
  {
    if n == 0 then 0 else Automatic(fields, n - 1) + if Explicit(fields[n - 1]) then 0 else 1
  }

  // Field n's key: its id, or the next of -1, -2, ...
  function FlatKey(fields: seq<FieldDef>, n: nat): int
    requires n < |fields|
  {
    if Explicit(fields[n]) then ExplicitKey(fields[n]) else Cut(-1 - Automatic(fields, n))
  }

  function FlatKeys(fields: seq<FieldDef>, n: nat): (keys: seq<int>)
    requires n <= |fields|
    ensures |keys| == n && forall i :: 0 <= i < n ==> keys[i] == FlatKey(fields, i)
  {
    seq(n, i requires 0 <= i < n => FlatKey(fields, i))
  }

  lemma {:induction false} FlatRuns(fields: seq<FieldDef>, n: nat)
    requires Flat(fields) && n <= |fields|
    ensures Runs(false, Attrs(fields), n) == [Run(-1, Automatic(fields, n))]
  {
    if n > 0 {
      FlatRuns(fields, n - 1);
    }
  }

  lemma {:induction false} FlatFrom(fields: seq<FieldDef>, n: nat)
    requires Flat(fields) && n <= |fields|
    ensures match Keys(false, Attrs(fields), n, FlatKeys(fields, n), Cut(-1 - Automatic(fields, n))).0
            case Accepted(keys) => keys == FlatKeys(fields, |fields|)
            case Duplicate(key) => exists i, j ::
                0 <= i < j < |fields| && FlatKey(fields, i) == FlatKey(fields, j) == key
    decreases |fields| - n
  {
    if n < |fields| {
      var before, key := FlatKeys(fields, n), FlatKey(fields, n);
      CutBefore(-1 - Automatic(fields, n), 1);
      if key in before {
        var i :| 0 <= i < n && before[i] == key;
        assert FlatKey(fields, i) == FlatKey(fields, n);
      } else {
        assert FlatKeys(fields, n + 1) == before + [key];
        FlatFrom(fields, n + 1);
      }
    }
  }

  // Such a list is refused exactly if two explicit keys are the same, or one of them is among the automatic
  // ones, or there are more of these than numbers; else the fields have the keys said.
  lemma {:induction false} FlatLists(fields: seq<FieldDef>)
    requires Flat(fields)
    ensures var r, run := KeysOf(false, fields), Run(-1, Automatic(fields, |fields|));
            if && ExplicitDistinct(fields, |fields|) && run.count <= TWO32
               && forall i :: 0 <= i < |fields| && Explicit(fields[i]) ==> !run.Has(ExplicitKey(fields[i]))
            then r == Accepted(FlatKeys(fields, |fields|)) else r.Duplicate?
  {
    assert FlatKeys(fields, 0) == [];
    FlatFrom(fields, 0);
    FlatRuns(fields, |fields|);
    ListAccepted(false, fields);
    var runs := Runs(false, Attrs(fields), |fields|);
    forall key
      ensures Covers(runs, key) <==> runs[0].Has(key)
    {
    }
  }

  ghost predicate Twice(fields: seq<FieldDef>, key: int) {
    key > 0 && exists i, j :: 0 <= i < j < |fields| && fields[i].id == Some(key) && fields[j].id == Some(key)
  }

  lemma {:induction false} AutomaticGrows(fields: seq<FieldDef>, m: nat, n: nat)
    requires m < n <= |fields| && !Explicit(fields[m])
    ensures Automatic(fields, m) < Automatic(fields, n)
    decreases n
  {
    if m < n - 1 {
      AutomaticGrows(fields, m, n - 1);
    }
  }

  // With int32_t ids and not too many fields, such a list is refused exactly if two explicit positive ids
  // are the same; else the others get -1, -2, ... in turn.
  lemma {:induction false} NarrowFlatLists(fields: seq<FieldDef>)
    requires Flat(fields) && |fields| < TWO31
    requires forall i :: 0 <= i < |fields| && Explicit(fields[i]) ==> Int32(fields[i].id.value)
    ensures var r := KeysOf(false, fields);
            if IdsDistinct(fields) then r == Accepted(FlatKeys(fields, |fields|))
            else r.Duplicate? && Twice(fields, r.key)
  {
    FlatLists(fields);
    ExplicitOutside(fields, Run(-1, Automatic(fields, |fields|)));
    assert FlatKeys(fields, 0) == [];
    FlatFrom(fields, 0);
    if KeysOf(false, fields).Duplicate? {
      SameKeysTwice(fields, KeysOf(false, fields).key);
    }
  }

  lemma {:induction false} SameKeysTwice(fields: seq<FieldDef>, key: int)
    requires Flat(fields) && |fields| < TWO31
    requires forall i :: 0 <= i < |fields| && Explicit(fields[i]) ==> Int32(fields[i].id.value)
    requires exists i, j :: 0 <= i < j < |fields| && FlatKey(fields, i) == FlatKey(fields, j) == key
    ensures Twice(fields, key)
  {
    var i, j :| 0 <= i < j < |fields| && FlatKey(fields, i) == FlatKey(fields, j) == key;
    SameIds(fields, i, j);
  }

  lemma {:induction false} ExplicitOutside(fields: seq<FieldDef>, run: Run)
    requires NarrowRun(run) && forall i :: 0 <= i < |fields| && Explicit(fields[i]) ==> Int32(fields[i].id.value)
    ensures forall i :: 0 <= i < |fields| && Explicit(fields[i]) ==> !run.Has(ExplicitKey(fields[i]))
    ensures ExplicitDistinct(fields, |fields|) <==> IdsDistinct(fields)
  {
    forall i | 0 <= i < |fields| && Explicit(fields[i])
      ensures !run.Has(ExplicitKey(fields[i]))
    {
      NarrowHas(run, fields[i].id.value);
    }
  }

  // There the key of a field is its id, or the next of -1, -2, ... as it is.
  lemma {:induction false} NarrowFlatKey(fields: seq<FieldDef>, i: nat)
    requires i < |fields| < TWO31 && (Explicit(fields[i]) ==> Int32(fields[i].id.value))
    ensures FlatKey(fields, i) == if Explicit(fields[i]) then fields[i].id.value else -1 - Automatic(fields, i)
  {
  }

  lemma {:induction false} SameIds(fields: seq<FieldDef>, i: nat, j: nat)
    requires i < j < |fields| < TWO31 && FlatKey(fields, i) == FlatKey(fields, j)
    requires forall i :: 0 <= i < |fields| && Explicit(fields[i]) ==> Int32(fields[i].id.value)
    ensures Twice(fields, FlatKey(fields, i))
  {
    NarrowFlatKey(fields, i);
    NarrowFlatKey(fields, j);
    if !Explicit(fields[i]) {
      AutomaticGrows(fields, i, j);
    }
    assert fields[i].id == Some(FlatKey(fields, i)) && fields[j].id == Some(FlatKey(fields, i));
  }

  // An id that has more than 32 bits can be the same key as another one, or as an automatic one.
  lemma {:induction false} WideMeets()
    ensures KeysOf(false, [FieldDef(Some(1), NoAttrs), FieldDef(Some(4294967297), NoAttrs)]) == Duplicate(1)
    ensures KeysOf(false, [FieldDef(None, NoAttrs), FieldDef(Some(4294967295), NoAttrs)]) == Duplicate(-1)
  {
    var list := Attrs([FieldDef(Some(1), NoAttrs), FieldDef(Some(4294967297), NoAttrs)]);
    assert Keys(false, list, 0, [], -1) == Keys(false, list, 1, [] + [1], -1);
    var list' := Attrs([FieldDef(None, NoAttrs), FieldDef(Some(4294967295), NoAttrs)]);
    assert Keys(false, list', 0, [], -1) == Keys(false, list', 1, [] + [-1], -2);
  }

  // With xsd_attrs in between the counting starts again, and two automatic keys can be the same.
  lemma {:induction false} AttrsRestart()
    ensures KeysOf(false, [FieldDef(None, Attrs([FieldDef(Some(1), NoAttrs)])), FieldDef(None, NoAttrs)])
            == Duplicate(-1)
  {
    var attrs := Attrs([FieldDef(Some(1), NoAttrs)]);
    var list := Attrs([FieldDef(None, attrs), FieldDef(None, NoAttrs)]);
    assert Keys(false, attrs, 0, [], -1) == Keys(false, attrs, 1, [] + [1], -1) == (Accepted([] + [1]), -1);
    assert Keys(false, list, 0, [], -1) == Keys(false, list, 1, [] + [-1], -1);
  }

  // With negative keys allowed, an explicit one can meet an automatic one.
  lemma {:induction false} NegativeMeets()
    ensures KeysOf(true, [FieldDef(None, NoAttrs), FieldDef(Some(0), NoAttrs), FieldDef(None, NoAttrs)])
            == Duplicate(-1)
  {
    var list := Attrs([FieldDef(None, NoAttrs), FieldDef(Some(0), NoAttrs), FieldDef(None, NoAttrs)]);
    assert Keys(true, list, 0, [], -1) == Keys(true, list, 1, [] + [-1], -2);
    assert Keys(true, list, 1, [-1], -2) == Keys(true, list, 2, [-1] + [0], -1);
  }
}
