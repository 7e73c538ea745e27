/** The activity store: the activity records the page keeps in memory, the
    fixture it starts from, lookup by id and the participant filter. */
module Roster {
  import opened Wrappers

  /** One activity record. `participants` is the list of signed-up emails, in
      signup order; a missing list is the same as an empty one. */
  datatype Activity = Activity(
    id: string,
    name: string,
    description: string,
    schedule: string,
    capacity: int,
    participants: seq<string>)

  /** The records the page starts with. */
  function Fixture(): seq<Activity> {
    [ Activity("chess", "Chess Club", "Weekly strategy sessions and friendly matches.",
               "Tuesdays \U{2022} 4:00\U{2013}5:30 PM", 8,
               ["alice@mergington.edu", "ben@mergington.edu"]),
      Activity("robotics", "Robotics Team", "Build and program robots for competitions.",
               "Wednesdays \U{2022} 3:30\U{2013}5:30 PM", 12,
               ["carmen@mergington.edu"]),
      Activity("drama", "Drama Society", "Rehearsals, workshops, and seasonal plays.",
               "Fridays \U{2022} 4:00\U{2013}6:00 PM", 10,
               []) ]
  }

  function Ids(acts: seq<Activity>): (r: seq<string>)
    ensures |r| == |acts| && forall i | 0 <= i < |acts| :: r[i] == acts[i].id
  {
    seq(|acts|, i requires 0 <= i < |acts| => acts[i].id)
  }

  /** The position of the first occurrence of `x`, as `Array.prototype.find`
      and `querySelector` return the first match. */
  function FirstIndex(xs: seq<string>, x: string): (r: Option<nat>)
    ensures r.None? <==> x !in xs
    ensures r.Some? ==> r.value < |xs| && xs[r.value] == x
    ensures r.Some? ==> forall j | 0 <= j < r.value :: xs[j] != x
  {
    if xs == [] then None
    else if xs[0] == x then Some(0)
    else match FirstIndex(xs[1..], x)
      case None => None
      case Some(k) => Some(k + 1)
  }

  /** `activities.find(a => a.id === id)`, as a position in the store. */
  function FindById(acts: seq<Activity>, id: string): (r: Option<nat>)
    ensures r.None? <==> forall j | 0 <= j < |acts| :: acts[j].id != id
    ensures r.Some? ==> r.value < |acts| && acts[r.value].id == id
    ensures r.Some? ==> forall j | 0 <= j < r.value :: acts[j].id != id
  {
    var r := FirstIndex(Ids(acts), id);
    assert r.None? ==> forall j | 0 <= j < |acts| :: Ids(acts)[j] != id;
    r
  }

  predicate NoDuplicates(xs: seq<string>) {
    forall i, j | 0 <= i < j < |xs| :: xs[i] != xs[j]
  }

  /** No two activities share an id, so lookups find the intended one. */
  predicate UniqueIds(acts: seq<Activity>) {
    NoDuplicates(Ids(acts))
  }

  /** The shape the handlers keep the records in: every participant list
      duplicate-free and no longer than its capacity. */
  predicate WellFormed(acts: seq<Activity>) {
    forall i | 0 <= i < |acts| ::
      NoDuplicates(acts[i].participants) && |acts[i].participants| <= acts[i].capacity
  }

  lemma FixtureWellFormed()
    ensures WellFormed(Fixture()) && UniqueIds(Fixture())
  {
  }

  lemma FindInUnique(acts: seq<Activity>, k: nat)
    requires UniqueIds(acts) && k < |acts|
    ensures FindById(acts, acts[k].id) == Some(k)
  {
  }

  /** Replacing a record by one with the same id keeps the ids, and so their uniqueness. */
  lemma SameIds(acts: seq<Activity>, k: nat, a: Activity)
    requires k < |acts| && a.id == acts[k].id
    ensures Ids(acts[k := a]) == Ids(acts)
  {
  }

  /** `list.filter(p => p !== x)`. */
  function Without(xs: seq<string>, x: string): (r: seq<string>)
    ensures x !in r
    ensures forall y | y != x :: multiset(r)[y] == multiset(xs)[y]
  {
    if xs == [] then []
    else
      assert xs == [xs[0]] + xs[1..];
      (if xs[0] == x then [] else [xs[0]]) + Without(xs[1..], x)
  }

  /** Filtering keeps the order of what stays: it works piece by piece. */
  lemma {:induction false} WithoutConcat(a: seq<string>, b: seq<string>, x: string)
    ensures Without(a + b, x) == Without(a, x) + Without(b, x)
  {
    if a == [] {
      assert a + b == b;
    } else {
      assert (a + b)[0] == a[0];
      assert (a + b)[1..] == a[1..] + b;
      WithoutConcat(a[1..], b, x);
    }
  }

  /** Filtering out an absent value changes nothing. */
  lemma {:induction false} WithoutAbsent(xs: seq<string>, x: string)
    requires x !in xs
    ensures Without(xs, x) == xs
  {
    if xs != [] {
      WithoutAbsent(xs[1..], x);
      assert xs == [xs[0]] + xs[1..];
    }
  }

  /** Filtering keeps a list duplicate-free. */
  lemma {:induction false} WithoutNoDuplicates(xs: seq<string>, x: string)
    requires NoDuplicates(xs)
    ensures NoDuplicates(Without(xs, x))
  {
    if xs != [] {
      var t := xs[1..];
      assert NoDuplicates(t) by {
        forall i, j | 0 <= i < j < |t| ensures t[i] != t[j] {
          assert t[i] == xs[i + 1] && t[j] == xs[j + 1];
        }
      }
      WithoutNoDuplicates(t, x);
      var w := Without(t, x);
      if xs[0] != x {
        assert xs[0] !in t by {
          forall j | 0 <= j < |t| ensures t[j] != xs[0] { assert t[j] == xs[j + 1]; }
        }
        assert multiset(w)[xs[0]] == multiset(t)[xs[0]] == 0;
        ConsNoDuplicates(xs[0], w);
      }
    }
  }

  lemma ConsNoDuplicates(a: string, w: seq<string>)
    requires a !in w && NoDuplicates(w)
    ensures NoDuplicates([a] + w)
  {
    var r := [a] + w;
    forall i, j | 0 <= i < j < |r| ensures r[i] != r[j] {
      assert r[j] == w[j - 1];
      if i > 0 { assert r[i] == w[i - 1]; }
    }
  }

  /** In a duplicate-free list, removing a member shortens it by exactly one. */
  lemma {:induction false} WithoutMember(xs: seq<string>, x: string)
    requires NoDuplicates(xs) && x in xs
    ensures |Without(xs, x)| == |xs| - 1
  {
    if xs[0] == x {
      assert x !in xs[1..];
      WithoutAbsent(xs[1..], x);
    } else {
      WithoutMember(xs[1..], x);
    }
  }

  /** Removing a member that occurs once leaves the values before it and
      the values after it, each in their order. */
  lemma WithoutOnce(a: seq<string>, x: string, b: seq<string>)
    requires x !in a && x !in b
    ensures Without(a + [x] + b, x) == a + b
  {
    WithoutConcat(a + [x], b, x);
    WithoutConcat(a, [x], x);
    WithoutAbsent(a, x);
    WithoutAbsent(b, x);
    assert Without([x], x) == [];
    assert Without(a + [x], x) == a;
  }

  lemma WithoutShorter(xs: seq<string>, x: string)
    ensures |Without(xs, x)| <= |xs|
  {
  }

  /** Appending a value that is absent keeps a list duplicate-free. */
  lemma AppendNoDuplicates(xs: seq<string>, x: string)
    requires NoDuplicates(xs) && x !in xs
    ensures NoDuplicates(xs + [x])
  {
  }
}
