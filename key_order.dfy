/** The order write_book puts the positions in: std::sort of the entries by
    key under std::string's operator< (book.cpp:1123-1128). The keys of a
    map are distinct, so the sorted order is the one ascending arrangement
    of the keys. */
module KeyOrder {
  import opened Text

  /** Keys in strictly ascending order. */
  predicate Ascending(ks: seq<string>) {
    forall i, j :: 0 <= i < j < |ks| ==> Less(ks[i], ks[j])
  }

  predicate Distinct(ks: seq<string>) {
    forall i, j :: 0 <= i < j < |ks| ==> ks[i] != ks[j]
  }

  /** Places x in front of the first key of t that is greater. */
  function InsertKey(x: string, t: seq<string>): (r: seq<string>)
    ensures |r| == |t| + 1
  {
    if t == [] then [x]
    else if Less(x, t[0]) then [x] + t
    else [t[0]] + InsertKey(x, t[1..])
  }

  /** The std::sort of the keys. */
  function SortKeys(ks: seq<string>): (r: seq<string>)
    ensures |r| == |ks|
  {
    if ks == [] then [] else InsertKey(ks[|ks| - 1], SortKeys(ks[..|ks| - 1]))
  }

  lemma {:induction false} InsertKeySpec(x: string, t: seq<string>)
    requires Ascending(t) && x !in t
    ensures Ascending(InsertKey(x, t))
    ensures forall y :: y in InsertKey(x, t) <==> y == x || y in t
  {
    if t == [] {
    } else if Less(x, t[0]) {
      var r := [x] + t;
      forall i, j | 0 <= i < j < |r| ensures Less(r[i], r[j]) {
        if i == 0 && j > 1 {
          LessTransitive(x, t[0], t[j - 1]);
        }
      }
    } else {
      var u := InsertKey(x, t[1..]);
      InsertKeySpec(x, t[1..]);
      LessTrichotomy(x, t[0]);
      var r := [t[0]] + u;
      assert InsertKey(x, t) == r;
      forall j | 0 <= j < |u| ensures Less(t[0], u[j]) {
        if u[j] != x {
          assert u[j] in t[1..];
          var k :| 0 <= k < |t[1..]| && t[1..][k] == u[j];
          assert t[k + 1] == u[j];
        }
      }
      forall i, j | 0 <= i < j < |r| ensures Less(r[i], r[j]) {
        if i > 0 {
          assert r[i] == u[i - 1] && r[j] == u[j - 1];
        }
      }
      assert t == [t[0]] + t[1..];
    }
  }

  /** Sorting distinct keys leaves them ascending, the same keys. */
  lemma {:induction false} SortKeysSpec(ks: seq<string>)
    requires Distinct(ks)
    ensures Ascending(SortKeys(ks))
    ensures forall y :: y in SortKeys(ks) <==> y in ks
  {
    if ks != [] {
      var init := ks[..|ks| - 1];
      SortKeysSpec(init);
      InsertKeySpec(ks[|ks| - 1], SortKeys(init));
      assert ks == init + [ks[|ks| - 1]];
    }
  }

  /** Adding y to a set whose least key is m: the lesser of y and m is
      least. */
  lemma LeastStep(s: set<string>, y: string, m: string)
    requires y in s && m in s - {y}
    requires forall x :: x in s - {y} && x != m ==> Less(m, x)
    ensures var l := if Less(y, m) then y else m;
      forall x :: x in s && x != l ==> Less(l, x)
  {
    LessTrichotomy(m, y);
    if Less(y, m) {
      forall x | x in s && x != y ensures Less(y, x) {
        if x != m {
          assert x in s - {y};
          LessTransitive(y, m, x);
        }
      }
    } else {
      forall x | x in s && x != m ensures Less(m, x) {
        if x != y {
          assert x in s - {y};
        }
      }
    }
  }

  /** The least key of a non-empty set. */
  ghost function Least(s: set<string>): (m: string)
    requires s != {}
    ensures m in s && forall x :: x in s && x != m ==> Less(m, x)
    decreases |s|
  {
    var y :| y in s;
    if s - {y} == {} then
      assert forall x :: x in s && x != y ==> x in s - {y};
      y
    else
      var m := Least(s - {y});
      LeastStep(s, y, m);
      if Less(y, m) then y else m
  }

  /** The keys of s in ascending order. */
  ghost function SortedKeys(s: set<string>): seq<string>
    decreases |s|
  {
    if s == {} then [] else [Least(s)] + SortedKeys(s - {Least(s)})
  }

  lemma {:induction false} SortedKeysSpec(s: set<string>)
    ensures Ascending(SortedKeys(s))
    ensures forall y :: y in SortedKeys(s) <==> y in s
    decreases |s|
  {
    if s != {} {
      var m := Least(s);
      var rest := SortedKeys(s - {m});
      SortedKeysSpec(s - {m});
      assert SortedKeys(s) == [m] + rest;
      forall j | 0 <= j < |rest| ensures Less(m, rest[j]) {
        assert rest[j] in s - {m};
      }
    }
  }

  lemma HeadIsElement(b: seq<string>)
    ensures b == [] || b[0] in b
  {
  }

  /** Two ascending arrangements of the same keys are the same. */
  lemma {:induction false} AscendingUnique(a: seq<string>, b: seq<string>)
    requires Ascending(a) && Ascending(b)
    requires forall y :: y in a <==> y in b
    ensures a == b
    decreases |a|
  {
    if a != [] {
      assert a[0] in b;
      assert b != [] && b[0] in b && b[0] in a;
      if a[0] != b[0] {
        var i :| 0 <= i < |a| && a[i] == b[0];
        var j :| 0 <= j < |b| && b[j] == a[0];
        LessAsymmetric(a[0], b[0]);
      }
      LessIrreflexive(a[0]);
      forall y ensures y in a[1..] <==> y in b[1..] {
        if y in a[1..] {
          var i :| 1 <= i < |a| && a[i] == y;
          assert y in b;
          var k :| 0 <= k < |b| && b[k] == y;
          assert k != 0;
          assert b[1..][k - 1] == y;
        }
        if y in b[1..] {
          var i :| 1 <= i < |b| && b[i] == y;
          assert y in a;
          var k :| 0 <= k < |a| && a[k] == y;
          assert k != 0;
          assert a[1..][k - 1] == y;
        }
      }
      AscendingUnique(a[1..], b[1..]);
      assert a == [a[0]] + a[1..] && b == [b[0]] + b[1..];
    } else {
      HeadIsElement(b);
    }
  }
}
