/** The bytewise order of names, and sorting by it. */
module Order {
  import opened Bytes

  /** a comes strictly before b, as Python compares byte strings. */
  predicate Less(a: Bytes, b: Bytes) {
    if b == [] then false
    else if a == [] then true
    else a[0] < b[0] || (a[0] == b[0] && Less(a[1..], b[1..]))
  }

  /** a and b agree on their first k bytes, and then a ends or has the smaller byte. */
  ghost predicate LessAt(a: Bytes, b: Bytes, k: int) {
    && 0 <= k <= |a| && k < |b| && (forall i | 0 <= i < k :: a[i] == b[i])
    && (k == |a| || a[k] < b[k])
  }

  /** The order of byte strings without recursion. */
  lemma {:induction false} LessMeans(a: Bytes, b: Bytes)
    ensures Less(a, b) <==> exists k :: LessAt(a, b, k)
  {
    if b != [] && a != [] {
      LessMeans(a[1..], b[1..]);
      if a[0] == b[0] {
        if k :| LessAt(a[1..], b[1..], k) {
          assert a[k + 1..] == a[1..][k..];
          assert k < |a[1..]| ==> a[k + 1] == a[1..][k] && b[k + 1] == b[1..][k];
          assert LessAt(a, b, k + 1);
        }
        if k :| LessAt(a, b, k) {
          assert LessAt(a[1..], b[1..], k - 1);
        }
      } else if a[0] < b[0] {
        assert LessAt(a, b, 0);
      }
    } else if b != [] {
      assert LessAt(a, b, 0);
    }
  }

  lemma {:induction false} LessTotal(a: Bytes, b: Bytes)
    ensures Less(a, b) || a == b || Less(b, a)
    ensures !(Less(a, b) && Less(b, a))
    ensures !Less(a, a)
  {
    if a != [] && b != [] {
      LessTotal(a[1..], b[1..]);
      assert a == [a[0]] + a[1..] && b == [b[0]] + b[1..];
    }
    LessIrreflexive(a);
  }

  lemma {:induction false} LessIrreflexive(a: Bytes)
    ensures !Less(a, a)
  {
    if a != [] {
      LessIrreflexive(a[1..]);
    }
  }

  lemma {:induction false} LessTransitive(a: Bytes, b: Bytes, c: Bytes)
    requires Less(a, b) && Less(b, c)
    ensures Less(a, c)
  {
    if a != [] && a[0] == b[0] == c[0] {
      LessTransitive(a[1..], b[1..], c[1..]);
    }
  }

  /** A proper prefix comes first. */
  lemma {:induction false} PrefixLess(a: Bytes, b: Bytes)
    requires b != []
    ensures Less(a, a + b)
  {
    if a != [] {
      assert (a + b)[1..] == a[1..] + b;
      PrefixLess(a[1..], b);
    }
  }

  datatype Keyed<+T> = Keyed(key: Bytes, value: T)

  /** Strictly increasing keys. */
  ghost predicate Ascending<T>(s: seq<Keyed<T>>) {
    forall i, j | 0 <= i < j < |s| :: Less(s[i].key, s[j].key)
  }

  ghost predicate DistinctKeys<T>(s: seq<Keyed<T>>) {
    forall i, j | 0 <= i < j < |s| :: s[i].key != s[j].key
  }

  function Insert<T>(x: Keyed<T>, s: seq<Keyed<T>>): (r: seq<Keyed<T>>)
    ensures |r| == |s| + 1
  {
    if s == [] || Less(x.key, s[0].key) then [x] + s else [s[0]] + Insert(x, s[1..])
  }

  /** Sorting by the byte order of the keys. */
  function Sort<T>(s: seq<Keyed<T>>): (r: seq<Keyed<T>>)
    ensures |r| == |s|
  {
    if s == [] then [] else Insert(s[0], Sort(s[1..]))
  }

  lemma {:induction false} InsertContents<T>(x: Keyed<T>, s: seq<Keyed<T>>)
    ensures multiset(Insert(x, s)) == multiset(s) + multiset{x}
  {
    if s != [] && !Less(x.key, s[0].key) {
      InsertContents(x, s[1..]);
      assert s == [s[0]] + s[1..];
    }
  }

  lemma {:induction false} SortContents<T>(s: seq<Keyed<T>>)
    ensures multiset(Sort(s)) == multiset(s)
  {
    if s != [] {
      SortContents(s[1..]);
      InsertContents(s[0], Sort(s[1..]));
      assert s == [s[0]] + s[1..];
    }
  }

  lemma NoMembers<T>(s: seq<T>)
    ensures s == [] <==> forall x :: x !in s
  {
    if s != [] {
      assert s[0] in s;
    }
  }

  lemma SameMembers<T>(a: seq<T>, b: seq<T>)
    requires multiset(a) == multiset(b)
    ensures forall x :: x in a <==> x in b
  {
    forall x ensures x in a <==> x in b {
      assert x in a <==> x in multiset(a);
      assert x in b <==> x in multiset(b);
    }
  }

  lemma {:induction false} InsertAscending<T>(x: Keyed<T>, s: seq<Keyed<T>>)
    requires Ascending(s) && forall y | y in s :: y.key != x.key
    ensures Ascending(Insert(x, s))
  {
    hide Less;
    if s != [] {
      LessTotal(x.key, s[0].key);
      if Less(x.key, s[0].key) {
        forall j | 0 < j < |s| ensures Less(x.key, s[j].key) {
          LessTransitive(x.key, s[0].key, s[j].key);
        }
      } else {
        InsertAscending(x, s[1..]);
        InsertContents(x, s[1..]);
        var r := Insert(x, s[1..]);
        forall j | 0 <= j < |r| ensures Less(s[0].key, r[j].key) {
          assert r[j] in multiset(r);
          assert r[j] in s[1..] || r[j] == x;
        }
      }
    }
  }

  lemma {:induction false} SortAscending<T>(s: seq<Keyed<T>>)
    requires DistinctKeys(s)
    ensures Ascending(Sort(s))
  {
    if s != [] {
      SortAscending(s[1..]);
      SortContents(s[1..]);
      forall y | y in Sort(s[1..]) ensures y.key != s[0].key {
        assert y in multiset(Sort(s[1..]));
        assert y in s[1..];
      }
      InsertAscending(s[0], Sort(s[1..]));
    }
  }

  /** An ascending sequence is determined by its members. */
  lemma {:induction false} AscendingUnique<T>(a: seq<Keyed<T>>, b: seq<Keyed<T>>)
    requires Ascending(a) && Ascending(b)
    requires forall x :: x in a <==> x in b
    ensures a == b
  {
    if a == [] {
      assert forall i | 0 <= i < |b| :: b[i] in b;
    } else {
      assert a[0] in b;
      assert b[0] in a by {
        assert b[0] in b;
      }
      var i :| 0 <= i < |b| && b[i] == a[0];
      var j :| 0 <= j < |a| && a[j] == b[0];
      LessTotal(a[0].key, b[0].key);
      assert a[0] == b[0];
      forall x ensures x in a[1..] <==> x in b[1..] {
        TailMember(a, x);
        TailMember(b, x);
      }
      AscendingUnique(a[1..], b[1..]);
      assert a == [a[0]] + a[1..] && b == [b[0]] + b[1..];
    }
  }

  lemma TailMember<T>(s: seq<Keyed<T>>, x: Keyed<T>)
    requires s != [] && Ascending(s)
    ensures x in s[1..] <==> x in s && x != s[0]
  {
    LessIrreflexive(s[0].key);
    if x in s && x != s[0] {
      var i :| 0 <= i < |s| && s[i] == x;
      assert s[1..][i - 1] == x;
    }
  }

  /** Sorting any enumeration of an ascending sequence gives that sequence back. */
  lemma SortEnumeration<T>(enumerated: seq<Keyed<T>>, s: seq<Keyed<T>>)
    requires Ascending(s) && multiset(enumerated) == multiset(s)
    ensures Sort(enumerated) == s
  {
    AscendingDistinct(s);
    EnumerationDistinct(enumerated, s);
    SortAscending(enumerated);
    SortContents(enumerated);
    SameMembers(Sort(enumerated), s);
    AscendingUnique(Sort(enumerated), s);
  }

  lemma AscendingDistinct<T>(s: seq<Keyed<T>>)
    requires Ascending(s)
    ensures DistinctKeys(s)
  {
    forall i, j | 0 <= i < j < |s| ensures s[i].key != s[j].key {
      LessIrreflexive(s[i].key);
    }
  }

  lemma EnumerationDistinct<T>(a: seq<Keyed<T>>, s: seq<Keyed<T>>)
    requires DistinctKeys(s) && multiset(a) == multiset(s)
    ensures DistinctKeys(a)
  {
    forall i, j | 0 <= i < j < |a| ensures a[i].key != a[j].key {
      if a[i].key == a[j].key {
        SameMembers(a, s);
        assert a[i] in a && a[j] in a;
        var p :| 0 <= p < |s| && s[p] == a[i];
        var q :| 0 <= q < |s| && s[q] == a[j];
        assert p == q;
        TwiceInMultiset(a, i, j);
        OnceInMultiset(s, p);
      }
    }
  }

  lemma TwiceInMultiset<T>(a: seq<T>, i: nat, j: nat)
    requires i < j < |a| && a[i] == a[j]
    ensures multiset(a)[a[i]] >= 2
  {
    assert a == a[..i] + [a[i]] + a[i + 1..j] + [a[j]] + a[j + 1..];
  }

  lemma OnceInMultiset<T>(s: seq<Keyed<T>>, p: nat)
    requires DistinctKeys(s) && p < |s|
    ensures multiset(s)[s[p]] == 1
  {
    assert s == s[..p] + [s[p]] + s[p + 1..];
    assert s[p] !in s[..p] && s[p] !in s[p + 1..];
  }

  /** The members of a set of names in ascending order. */
  method SortedNames(names: set<Bytes>) returns (s: seq<Bytes>)
    ensures forall x :: x in s <==> x in names
    ensures forall i, j | 0 <= i < j < |s| :: Less(s[i], s[j])
  {
    hide Less;
    var rest := names;
    var listed: seq<Keyed<()>> := [];
    while rest != {}
      invariant rest <= names && DistinctKeys(listed)
      invariant forall i | 0 <= i < |listed| :: listed[i].key in names - rest
      invariant forall x | x in names - rest :: Keyed(x, ()) in listed
      decreases rest
    {
      var x :| x in rest;
      rest := rest - {x};
      listed := listed + [Keyed(x, ())];
    }
    var items := Sort(listed);
    SortAscending(listed);
    SortContents(listed);
    s := seq(|items|, i requires 0 <= i < |items| => items[i].key);
    KeysOf(items, listed, names, s);
  }

  lemma KeysOf(items: seq<Keyed<()>>, listed: seq<Keyed<()>>, names: set<Bytes>, s: seq<Bytes>)
    requires multiset(items) == multiset(listed) && |s| == |items|
    requires forall i | 0 <= i < |s| :: s[i] == items[i].key
    requires forall i | 0 <= i < |listed| :: listed[i].key in names
    requires forall x | x in names :: Keyed(x, ()) in listed
    ensures forall x :: x in s <==> x in names
  {
    forall i | 0 <= i < |s| ensures s[i] in names {
      assert items[i] in multiset(items);
      assert items[i] in listed;
    }
    forall x | x in names ensures x in s {
      assert Keyed(x, ()) in multiset(listed);
      assert Keyed(x, ()) in items;
      var i :| 0 <= i < |items| && items[i] == Keyed(x, ());
      assert s[i] == x;
    }
  }
}
