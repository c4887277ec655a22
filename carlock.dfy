/**
  The dictionary-based version of the engine (Carlock.py).  A person is a
  dictionary with the keys `name`, `spouses`, `parent1`, `parent2` and
  `children`; the tree maps each name to its dictionary.

  Here a person is a `Rec` value and the tree a `map<string, Rec>`.  The
  parent entries of a dictionary are the parents' own dictionaries; the model
  holds the parents' names instead.  That is exact because Carlock.py never
  replaces an entry of the tree: a name is stored once and its dictionary is
  updated in place from then on, so the dictionary a parent link refers to is
  always the one stored under the parent's name.  For the same reason Python's
  structural `==` between two stored dictionaries is equality of their names.
 */
module Carlock {
  import opened ListOps

  datatype Option<T> = None | Some(value: T)

  /** One person dictionary; the parents are held by name. */
  datatype Rec = Rec(name: string, spouses: seq<string>, parent1: Option<string>,
                     parent2: Option<string>, children: seq<string>)

  /** `create_person(name, parent1, parent2)`: no spouses and no children yet. */
  function CreatePerson(name: string, parent1: Option<string>, parent2: Option<string>): Rec
  {
    Rec(name, [], parent1, parent2, [])
  }

  // ---------------------------------------------------------------------
  // The invariant the `E` commands keep
  // ---------------------------------------------------------------------

  /** Every dictionary is stored under its own name. */
  ghost predicate Keyed(db: map<string, Rec>)
  {
    forall k :: k in db ==> db[k].name == k
  }

  /** A parent link, if set, names a stored person of smaller rank. */
  ghost predicate Older(db: map<string, Rec>, rank: map<string, nat>, p: Option<string>, r: nat)
  {
    p.Some? ==> p.value in db && p.value in rank && rank[p.value] < r
  }

  /** `rank` orders every stored person after their parents. */
  ghost predicate Ranked(db: map<string, Rec>, rank: map<string, nat>)
  {
    forall k :: k in db ==>
      k in rank && Older(db, rank, db[k].parent1, rank[k]) && Older(db, rank, db[k].parent2, rank[k])
  }

  /** Parent links are acyclic: some ranking puts parents first. */
  ghost predicate Acyclic(db: map<string, Rec>)
  {
    exists rank :: Ranked(db, rank)
  }

  /** One such ranking, the measure of the recursion of `get_ancestors`. */
  ghost function RankOf(db: map<string, Rec>): (rank: map<string, nat>)
    requires Acyclic(db)
    ensures Ranked(db, rank)
  {
    var rank :| Ranked(db, rank); rank
  }

  /** If `p` names a stored parent, its children list holds `k`. */
  ghost predicate ListedBy(db: map<string, Rec>, p: Option<string>, k: string)
  {
    p.Some? && p.value in db ==> k in db[p.value].children
  }

  /** Every person is on both parents' children lists. */
  ghost predicate ChildrenListed(db: map<string, Rec>)
  {
    forall k :: k in db ==> ListedBy(db, db[k].parent1, k) && ListedBy(db, db[k].parent2, k)
  }

  /** Every spouse entry names a stored person who lists the first one back. */
  ghost predicate SpousesSymmetric(db: map<string, Rec>)
  {
    forall k, s :: k in db && s in db[k].spouses ==> s in db && k in db[s].spouses
  }

  ghost predicate WellFormed(db: map<string, Rec>)
  {
    Keyed(db) && Acyclic(db) && ChildrenListed(db) && SpousesSymmetric(db)
  }

  // ---------------------------------------------------------------------
  // add_spouse, add_child and the two `E` commands, as values
  // ---------------------------------------------------------------------

  /** The tree after `add_spouse(tree[person], tree[spouse])`: the spouse's
      name appended once and the list sorted again; nothing else changes. */
  function WithSpouse(db: map<string, Rec>, person: string, spouse: string): (r: map<string, Rec>)
    requires person in db
    ensures r.Keys == db.Keys
    ensures forall k :: k in db && k != person ==> r[k] == db[k]
    ensures r[person] == db[person].(spouses := r[person].spouses)
    ensures Sorted(r[person].spouses)
    ensures multiset(r[person].spouses) == multiset(db[person].spouses) + multiset{spouse}
    ensures forall x :: x in r[person].spouses <==> x in db[person].spouses || x == spouse
  {
    var spouses := Sort(db[person].spouses + [spouse]);
    assert forall x :: x in spouses <==> x in db[person].spouses + [spouse];
    db[person := db[person].(spouses := spouses)]
  }

  /** The tree after `add_child(tree[person], tree[child])`: the child's name
      appended once and the list sorted again; nothing else changes. */
  function WithChild(db: map<string, Rec>, person: string, child: string): (r: map<string, Rec>)
    requires person in db
    ensures r.Keys == db.Keys
    ensures forall k :: k in db && k != person ==> r[k] == db[k]
    ensures r[person] == db[person].(children := r[person].children)
    ensures Sorted(r[person].children)
    ensures multiset(r[person].children) == multiset(db[person].children) + multiset{child}
    ensures forall x :: x in r[person].children <==> x in db[person].children || x == child
  {
    var children := Sort(db[person].children + [child]);
    assert forall x :: x in children <==> x in db[person].children + [child];
    db[person := db[person].(children := children)]
  }

  /** The "initialize person" step: a name not yet in the tree gets a new
      parentless record; a stored one is reused as it is. */
  function Obtained(db: map<string, Rec>, name: string): (r: map<string, Rec>)
    ensures forall k :: k in r <==> k in db || k == name
    ensures forall k :: k in db ==> r[k] == db[k]
    ensures name !in db ==> r[name] == Rec(name, [], None, None, [])
  {
    if name in db then db else db[name := CreatePerson(name, None, None)]
  }

  /** Both "initialize person" steps of either `E` command, `a` first: both
      names end up stored; a stored person is reused unchanged and a new one
      has no parents, spouses or children. */
  function Vivified(db: map<string, Rec>, a: string, b: string): (r: map<string, Rec>)
    ensures a in r && b in r
    ensures forall k :: k in r <==> k in db || k == a || k == b
    ensures forall k :: k in db ==> r[k] == db[k]
    ensures forall k :: k !in db && (k == a || k == b) ==> r[k] == Rec(k, [], None, None, [])
  {
    Obtained(Obtained(db, a), b)
  }

  /** The tree after `E a b`. */
  function AfterMarriage(db: map<string, Rec>, a: string, b: string): map<string, Rec>
  {
    var v := Vivified(db, a, b);
    WithSpouse(WithSpouse(v, a, b), b, a)
  }

  /** The accepting branch of `E a b c`: store `create_person(c, a, b)` and
      call `add_child` on both parents. */
  function Birth(v: map<string, Rec>, a: string, b: string, c: string): map<string, Rec>
    requires a in v && b in v
  {
    WithChild(WithChild(v[c := CreatePerson(c, Some(a), Some(b))], a, c), b, c)
  }

  /** The tree after `E a b c`: the child is created only when `c` is a new
      name once both parents exist. */
  function AfterChild(db: map<string, Rec>, a: string, b: string, c: string): map<string, Rec>
  {
    var v := Vivified(db, a, b);
    if c in v then v else Birth(v, a, b, c)
  }

  /** `E a b` changes the spouse lists of `a` and `b` only: every other
      record and every other field stays as it was once both exist. */
  lemma MarriageFrame(db: map<string, Rec>, a: string, b: string)
    ensures var v := Vivified(db, a, b); var m := AfterMarriage(db, a, b);
      && a in m && b in m
      && (forall k :: k in m <==> k in db || k == a || k == b)
      && (forall k :: k in db && k != a && k != b ==> m[k] == db[k])
      && m[a] == v[a].(spouses := m[a].spouses)
      && m[b] == v[b].(spouses := m[b].spouses)
  {
    var v := Vivified(db, a, b);
    var w := WithSpouse(v, a, b);
    if a != b {
      assert w[b] == v[b];
    }
  }

  /** `E a b` adds `b` to `a`'s spouses and `a` to `b`'s, once each (twice to
      one list when `a == b`), and keeps both lists sorted. */
  lemma MarriageSpouses(db: map<string, Rec>, a: string, b: string)
    ensures var v := Vivified(db, a, b); var m := AfterMarriage(db, a, b);
      && a in m && b in m
      && Sorted(m[a].spouses) && Sorted(m[b].spouses)
      && (a != b ==>
            && multiset(m[a].spouses) == multiset(v[a].spouses) + multiset{b}
            && multiset(m[b].spouses) == multiset(v[b].spouses) + multiset{a})
      && (a == b ==> multiset(m[a].spouses) == multiset(v[a].spouses) + multiset{a, a})
  {
    var v := Vivified(db, a, b);
    var w := WithSpouse(v, a, b);
    if a != b {
      assert w[b] == v[b];
    }
  }

  /** Marrying the same couple again appends the names again: spouse lists
      keep every marriage, so `E a b` is not idempotent. */
  lemma RepeatedMarriage(db: map<string, Rec>, a: string, b: string)
    requires a != b
    ensures var m := AfterMarriage(AfterMarriage(db, a, b), a, b);
      a in m && multiset(m[a].spouses)[b] == multiset(Vivified(db, a, b)[a].spouses)[b] + 2
  {
    MarriageSpouses(db, a, b);
    var m1 := AfterMarriage(db, a, b);
    MarriageSpouses(m1, a, b);
    assert Vivified(m1, a, b) == m1;
  }

  /** The child command is rejected exactly when `c` is stored once both
      parents exist; then only the parents' creation has happened and the
      record stored under `c` is the one that was there before. */
  lemma ChildRejected(db: map<string, Rec>, a: string, b: string, c: string)
    ensures c in Vivified(db, a, b) <==> c in db || c == a || c == b
    ensures c in Vivified(db, a, b) ==> AfterChild(db, a, b, c) == Vivified(db, a, b)
    ensures c in db ==> AfterChild(db, a, b, c)[c] == db[c]
  {
  }

  /** An accepted child is stored with both parent links set and empty lists,
      its name is appended to both parents' children lists (twice to one
      person who is both parents), and no other record changes. */
  lemma BirthEffect(v: map<string, Rec>, a: string, b: string, c: string)
    requires a in v && b in v && c !in v
    ensures var r := Birth(v, a, b, c);
      && a in r && b in r && c in r
      && (forall k :: k in r <==> k in v || k == c)
      && r[c] == Rec(c, [], Some(a), Some(b), [])
      && (forall k :: k in v && k != a && k != b ==> r[k] == v[k])
      && r[a] == v[a].(children := r[a].children)
      && r[b] == v[b].(children := r[b].children)
      && Sorted(r[a].children) && Sorted(r[b].children)
      && (a != b ==>
            && multiset(r[a].children) == multiset(v[a].children) + multiset{c}
            && multiset(r[b].children) == multiset(v[b].children) + multiset{c})
      && (a == b ==> multiset(r[a].children) == multiset(v[a].children) + multiset{c, c})
  {
    var w := v[c := CreatePerson(c, Some(a), Some(b))];
    var x := WithChild(w, a, c);
    if a != b {
      assert x[b] == v[b];
    }
  }

  // ---------------------------------------------------------------------
  // The commands keep the invariant
  // ---------------------------------------------------------------------

  /** Keeping every name and parent link keeps a ranking valid. */
  lemma RankedKept(db: map<string, Rec>, db': map<string, Rec>, rank: map<string, nat>)
    requires Ranked(db, rank) && db'.Keys == db.Keys
    requires forall k :: k in db ==> db'[k].parent1 == db[k].parent1 && db'[k].parent2 == db[k].parent2
    ensures Ranked(db', rank)
  {
    forall k | k in db'
      ensures k in rank && Older(db', rank, db'[k].parent1, rank[k]) && Older(db', rank, db'[k].parent2, rank[k])
    {
      assert Older(db, rank, db[k].parent1, rank[k]) && Older(db, rank, db[k].parent2, rank[k]);
    }
  }

  /** `add_spouse` keeps every name, parent link and children list, so it
      keeps the parts of the invariant about them. */
  lemma WithSpouseKeeps(db: map<string, Rec>, person: string, spouse: string, rank: map<string, nat>)
    requires Keyed(db) && Ranked(db, rank) && ChildrenListed(db) && person in db
    ensures var r := WithSpouse(db, person, spouse);
      Keyed(r) && Ranked(r, rank) && ChildrenListed(r)
  {
    var r := WithSpouse(db, person, spouse);
    RankedKept(db, r, rank);
    forall k | k in r ensures ListedBy(r, r[k].parent1, k) && ListedBy(r, r[k].parent2, k) {
      assert ListedBy(db, db[k].parent1, k) && ListedBy(db, db[k].parent2, k);
    }
  }

  /** Adding `b` to `a`'s spouses and `a` to `b`'s keeps spouse links
      symmetric. */
  lemma MarriedSymmetric(v: map<string, Rec>, m: map<string, Rec>, a: string, b: string)
    requires SpousesSymmetric(v) && a in v && b in v && m.Keys == v.Keys
    requires forall s :: s in m[a].spouses <==> s in v[a].spouses || s == b
    requires forall s :: s in m[b].spouses <==> s in v[b].spouses || s == a
    requires forall k :: k in v && k != a && k != b ==> m[k].spouses == v[k].spouses
    ensures SpousesSymmetric(m)
  {
    forall k, s | k in m && s in m[k].spouses ensures s in m && k in m[s].spouses {
      if !((k == a && s == b) || (k == b && s == a)) {
        assert s in v[k].spouses;
        assert k in v[s].spouses;
      }
    }
  }

  /** Storing a new parentless record keeps the invariant. */
  lemma ObtainedKeeps(db: map<string, Rec>, name: string)
    requires WellFormed(db)
    ensures WellFormed(Obtained(db, name))
  {
    if name !in db {
      var o := Obtained(db, name);
      var rank :| Ranked(db, rank);
      var rank' := rank[name := 0];
      assert Ranked(o, rank') by {
        forall k | k in o
          ensures k in rank' && Older(o, rank', o[k].parent1, rank'[k]) && Older(o, rank', o[k].parent2, rank'[k])
        {
          if k != name {
            assert Older(db, rank, db[k].parent1, rank[k]) && Older(db, rank, db[k].parent2, rank[k]);
          }
        }
      }
      forall k | k in o ensures ListedBy(o, o[k].parent1, k) && ListedBy(o, o[k].parent2, k) {
        if k != name {
          assert ListedBy(db, db[k].parent1, k) && ListedBy(db, db[k].parent2, k);
        }
      }
    }
  }

  lemma VivifiedKeeps(db: map<string, Rec>, a: string, b: string)
    requires WellFormed(db)
    ensures WellFormed(Vivified(db, a, b))
  {
    ObtainedKeeps(db, a);
    ObtainedKeeps(Obtained(db, a), b);
  }

  /** `E a b` keeps the invariant; in particular spouse links stay symmetric. */
  lemma MarriageKeeps(db: map<string, Rec>, a: string, b: string)
    requires WellFormed(db)
    ensures WellFormed(AfterMarriage(db, a, b))
  {
    var v := Vivified(db, a, b);
    VivifiedKeeps(db, a, b);
    var rank :| Ranked(v, rank);
    var w := WithSpouse(v, a, b);
    WithSpouseKeeps(v, a, b, rank);
    var m := WithSpouse(w, b, a);
    WithSpouseKeeps(w, b, a, rank);
    assert forall s :: s in m[a].spouses <==> s in v[a].spouses || s == b by {
      if a != b {
        assert m[a] == w[a];
      }
    }
    assert w[b] == v[b] || a == b;
    MarriedSymmetric(v, m, a, b);
  }

  /** A child created from two stored parents gets a rank above both. */
  lemma BornRanked(v: map<string, Rec>, rank: map<string, nat>, a: string, b: string, c: string)
    requires Ranked(v, rank) && a in v && b in v && c !in v
    ensures a in rank && b in rank
    ensures Ranked(v[c := CreatePerson(c, Some(a), Some(b))], rank[c := 1 + rank[a] + rank[b]])
  {
    var w := v[c := CreatePerson(c, Some(a), Some(b))];
    var rank' := rank[c := 1 + rank[a] + rank[b]];
    forall k | k in w
      ensures k in rank' && Older(w, rank', w[k].parent1, rank'[k]) && Older(w, rank', w[k].parent2, rank'[k])
    {
      if k != c {
        assert Older(v, rank, v[k].parent1, rank[k]) && Older(v, rank, v[k].parent2, rank[k]);
      }
    }
  }

  /** After a birth every person is still on their parents' children lists,
      the new child included. */
  lemma BirthListed(v: map<string, Rec>, r: map<string, Rec>, rank: map<string, nat>, a: string, b: string, c: string)
    requires ChildrenListed(v) && Ranked(v, rank) && c !in v
    requires forall k :: k in r <==> k in v || k == c
    requires forall k :: k in v ==> r[k].parent1 == v[k].parent1 && r[k].parent2 == v[k].parent2
    requires forall k, x :: k in v && x in v[k].children ==> x in r[k].children
    requires r[c].parent1 == Some(a) && r[c].parent2 == Some(b)
    requires a in r && b in r && c in r[a].children && c in r[b].children
    ensures ChildrenListed(r)
  {
    forall k | k in r ensures ListedBy(r, r[k].parent1, k) && ListedBy(r, r[k].parent2, k) {
      if k != c {
        assert ListedBy(v, v[k].parent1, k) && ListedBy(v, v[k].parent2, k);
        assert Older(v, rank, v[k].parent1, rank[k]) && Older(v, rank, v[k].parent2, rank[k]);
      }
    }
  }

  /** A birth keeps names keyed and parent links acyclic: the child is
      ranked above both parents. */
  lemma BirthAcyclic(v: map<string, Rec>, a: string, b: string, c: string)
    requires Keyed(v) && Acyclic(v) && a in v && b in v && c !in v
    ensures Keyed(Birth(v, a, b, c)) && Acyclic(Birth(v, a, b, c))
  {
    var rank :| Ranked(v, rank);
    BornRanked(v, rank, a, b, c);
    var rank' := rank[c := 1 + rank[a] + rank[b]];
    var w := v[c := CreatePerson(c, Some(a), Some(b))];
    var x := WithChild(w, a, c);
    RankedKept(w, x, rank');
    var r := WithChild(x, b, c);
    RankedKept(x, r, rank');
  }

  /** A birth keeps every person on their parents' children lists. */
  lemma BirthChildren(v: map<string, Rec>, a: string, b: string, c: string)
    requires ChildrenListed(v) && Acyclic(v) && a in v && b in v && c !in v
    ensures ChildrenListed(Birth(v, a, b, c))
  {
    var rank :| Ranked(v, rank);
    var w := v[c := CreatePerson(c, Some(a), Some(b))];
    var x := WithChild(w, a, c);
    var r := WithChild(x, b, c);
    assert forall k, y :: k in v && y in v[k].children ==> y in r[k].children by {
      forall k, y | k in v && y in v[k].children ensures y in r[k].children {
        assert y in w[k].children && y in x[k].children;
      }
    }
    BirthListed(v, r, rank, a, b, c);
  }

  /** A birth changes no spouse list and the child has none. */
  lemma BirthSpouses(v: map<string, Rec>, a: string, b: string, c: string)
    requires SpousesSymmetric(v) && a in v && b in v && c !in v
    ensures SpousesSymmetric(Birth(v, a, b, c))
  {
    var r := Birth(v, a, b, c);
    forall k, s | k in r && s in r[k].spouses ensures s in r && k in r[s].spouses {
      assert s in v[k].spouses;
    }
  }

  /** The accepting branch of `E a b c` keeps the invariant. */
  lemma BirthKeeps(v: map<string, Rec>, a: string, b: string, c: string)
    requires WellFormed(v) && a in v && b in v && c !in v
    ensures WellFormed(Birth(v, a, b, c))
  {
    BirthAcyclic(v, a, b, c);
    BirthChildren(v, a, b, c);
    BirthSpouses(v, a, b, c);
  }

  /** `E a b c` keeps the invariant. */
  lemma ChildKeeps(db: map<string, Rec>, a: string, b: string, c: string)
    requires WellFormed(db)
    ensures WellFormed(AfterChild(db, a, b, c))
  {
    var v := Vivified(db, a, b);
    VivifiedKeeps(db, a, b);
    if c !in v {
      BirthKeeps(v, a, b, c);
    }
  }

  // ---------------------------------------------------------------------
  // get_ancestors
  // ---------------------------------------------------------------------

  /** The list `get_ancestors` returns: both parents' names and, recursively,
      both parents' ancestors, sorted, duplicates kept. */
  function Ancestors(db: map<string, Rec>, name: string): (r: seq<string>)
    requires Acyclic(db) && name in db
    decreases RankOf(db)[name]
    ensures Sorted(r)
    ensures db[name].parent1.None? || db[name].parent2.None? ==> r == []
    ensures db[name].parent1.Some? && db[name].parent2.Some? ==>
      db[name].parent1.value in r && db[name].parent2.value in r
  {
    var p := db[name];
    if p.parent1.None? || p.parent2.None? then []
    else
      assert Older(db, RankOf(db), p.parent1, RankOf(db)[name]);
      assert Older(db, RankOf(db), p.parent2, RankOf(db)[name]);
      Sort([p.parent1.value, p.parent2.value]
           + Ancestors(db, p.parent1.value) + Ancestors(db, p.parent2.value))
  }

  /** `get_ancestors`, with its appending loops. */
  method GetAncestors(db: map<string, Rec>, name: string) returns (ancestors: seq<string>)
    requires Acyclic(db) && name in db
    decreases RankOf(db)[name]
    ensures ancestors == Ancestors(db, name)
  {
    var person := db[name];
    ancestors := [];
    if person.parent1.None? || person.parent2.None? {
      return;
    }
    assert Older(db, RankOf(db), person.parent1, RankOf(db)[name]);
    assert Older(db, RankOf(db), person.parent2, RankOf(db)[name]);
    ancestors := ancestors + [person.parent1.value];
    ancestors := ancestors + [person.parent2.value];
    assert ancestors == [person.parent1.value, person.parent2.value];
    var ancestors1 := GetAncestors(db, person.parent1.value);
    ancestors := AppendEach(ancestors, ancestors1);
    var ancestors2 := GetAncestors(db, person.parent2.value);
    ancestors := AppendEach(ancestors, ancestors2);
    ancestors := Sort(ancestors);
  }

  /** With both parents set, the ancestor list holds both parents' names and
      each parent's ancestors, every occurrence kept. */
  lemma AncestorsOfParents(db: map<string, Rec>, name: string)
    requires Acyclic(db) && name in db && db[name].parent1.Some? && db[name].parent2.Some?
    requires db[name].parent1.value in db && db[name].parent2.value in db
    ensures var p1, p2 := db[name].parent1.value, db[name].parent2.value;
      && multiset(Ancestors(db, name))
           == multiset{p1, p2} + multiset(Ancestors(db, p1)) + multiset(Ancestors(db, p2))
      && |Ancestors(db, name)| == 2 + |Ancestors(db, p1)| + |Ancestors(db, p2)|
  {
    var p1, p2 := db[name].parent1.value, db[name].parent2.value;
    var gathered := [p1, p2] + Ancestors(db, p1) + Ancestors(db, p2);
    assert multiset(gathered) == multiset([p1, p2]) + multiset(Ancestors(db, p1)) + multiset(Ancestors(db, p2));
  }

  /** Every ancestor is a stored person ranked before the person, so nobody
      is their own ancestor. */
  lemma {:induction false} AncestorsOlder(db: map<string, Rec>, name: string)
    requires Acyclic(db) && name in db
    decreases RankOf(db)[name]
    ensures forall x :: x in Ancestors(db, name) ==> x in db && RankOf(db)[x] < RankOf(db)[name]
  {
    var p := db[name];
    if p.parent1.Some? && p.parent2.Some? {
      var rank := RankOf(db);
      assert Older(db, rank, p.parent1, rank[name]) && Older(db, rank, p.parent2, rank[name]);
      AncestorsOlder(db, p.parent1.value);
      AncestorsOlder(db, p.parent2.value);
      forall x | x in Ancestors(db, name) ensures x in db && rank[x] < rank[name] {
        AncestorStep(db, x, name);
      }
    }
  }

  // ---------------------------------------------------------------------
  // get_siblings
  // ---------------------------------------------------------------------

  /** The parents a person's record names are stored. */
  ghost predicate ParentsStored(db: map<string, Rec>, name: string)
    requires name in db
  {
    && (db[name].parent1.Some? ==> db[name].parent1.value in db)
    && (db[name].parent2.Some? ==> db[name].parent2.value in db)
  }

  /** The children list of the parent a link names (empty for None). */
  function ChildrenVia(db: map<string, Rec>, p: Option<string>): seq<string>
    requires p.Some? ==> p.value in db
  {
    if p.Some? then db[p.value].children else []
  }

  /** The list `get_siblings` has gathered before removing the person:
      parent1's children, then those of parent2's children not yet present. */
  function Collected(db: map<string, Rec>, name: string): (r: seq<string>)
    requires name in db && ParentsStored(db, name)
    ensures forall x :: x in r <==>
      x in ChildrenVia(db, db[name].parent1) || x in ChildrenVia(db, db[name].parent2)
  {
    AppendNew(ChildrenVia(db, db[name].parent1), ChildrenVia(db, db[name].parent2))
  }

  /** The list `get_siblings` returns.  `list.remove` raises when the person's
      own name was not gathered, hence the precondition. */
  function Siblings(db: map<string, Rec>, name: string): (r: seq<string>)
    requires name in db && ParentsStored(db, name) && name in Collected(db, name)
    ensures Sorted(r)
    ensures forall x :: x != name ==> (x in r <==>
      x in ChildrenVia(db, db[name].parent1) || x in ChildrenVia(db, db[name].parent2))
    ensures name in r <==> multiset(Collected(db, name))[name] >= 2
  {
    var gathered := RemoveFirst(Collected(db, name), name);
    assert multiset(gathered)[name] == multiset(Collected(db, name))[name] - 1;
    assert name in gathered <==> name in multiset(gathered);
    Sort(gathered)
  }

  /** `get_siblings`, with its two gathering loops. */
  method GetSiblings(db: map<string, Rec>, name: string) returns (siblings: seq<string>)
    requires name in db && ParentsStored(db, name) && name in Collected(db, name)
    ensures siblings == Siblings(db, name)
  {
    var person := db[name];
    siblings := [];
    if person.parent1.Some? {
      siblings := AppendEach(siblings, db[person.parent1.value].children);
    }
    assert siblings == ChildrenVia(db, person.parent1);
    if person.parent2.Some? {
      siblings := AppendMissing(siblings, db[person.parent2.value].children);
    }
    assert siblings == Collected(db, name);
    siblings := RemoveFirst(siblings, name);
    siblings := Sort(siblings);
  }

  /** In a well-formed tree `get_siblings` does not raise for a person with a
      parent: the person is on that parent's children list. */
  lemma SiblingsDefined(db: map<string, Rec>, name: string)
    requires WellFormed(db) && name in db && db[name].parent1.Some?
    ensures ParentsStored(db, name) && name in Collected(db, name)
  {
    var rank := RankOf(db);
    assert Older(db, rank, db[name].parent1, rank[name]) && Older(db, rank, db[name].parent2, rank[name]);
    assert ListedBy(db, db[name].parent1, name);
  }

  /** `get_siblings` removes only the first occurrence of the person's name.
      After `E a a c` with a new name `c`, that name is on `a`'s children
      list at least twice, so `c` is among its own siblings. */
  lemma SelfSibling(db: map<string, Rec>, a: string, c: string)
    requires c !in db && c != a
    ensures var r := AfterChild(db, a, a, c);
      && c in r && ParentsStored(r, c) && c in Collected(r, c)
      && c in Siblings(r, c)
  {
    var v := Vivified(db, a, a);
    var r := AfterChild(db, a, a, c);
    BirthEffect(v, a, a, c);
    var children := r[a].children;
    assert multiset(children)[c] >= 2;
    var gathered := Collected(r, c);
    assert gathered == children + gathered[|children|..];
    assert multiset(gathered)[c] >= 2;
  }

  // ---------------------------------------------------------------------
  // The relation predicates
  // ---------------------------------------------------------------------

  /** `is_child(a, b)`: `a` has both parents and one of them is `b`. */
  predicate IsChild(db: map<string, Rec>, a: string, b: string)
    requires a in db
  {
    var p := db[a];
    if p.parent1.None? || p.parent2.None? then false
    else p.parent1 == Some(b) || p.parent2 == Some(b)
  }

  /** `is_spouse(a, b)`: `b` is on `a`'s spouse list. */
  predicate IsSpouse(db: map<string, Rec>, a: string, b: string)
    requires a in db
  {
    b in db[a].spouses
  }

  /** `is_sibling(a, b)`: `a` shares a set parent with `b`; unlike the class
      version nothing is required of `b`'s parents. */
  predicate IsSibling(db: map<string, Rec>, a: string, b: string)
    requires a in db && b in db
  {
    var p, q := db[a], db[b];
    if a == b then false
    else if p.parent1.Some? && (p.parent1 == q.parent1 || p.parent1 == q.parent2) then true
    else if p.parent2.Some? && (p.parent2 == q.parent1 || p.parent2 == q.parent2) then true
    else false
  }

  /** `is_ancestor(a, b)`: `a` is among `b`'s ancestors. */
  predicate IsAncestor(db: map<string, Rec>, a: string, b: string)
    requires Acyclic(db) && b in db
  {
    a in Ancestors(db, b)
  }

  /** `is_cousin(a, b)`: a shared ancestor, with self, a direct parent and
      child either way, and an ancestor either way excluded first. */
  predicate IsCousin(db: map<string, Rec>, a: string, b: string)
    requires Acyclic(db) && a in db && b in db
  {
    if a == b then false
    else if IsChild(db, a, b) || IsChild(db, b, a) then false
    else
      var ancestors1 := Ancestors(db, a);
      var ancestors2 := Ancestors(db, b);
      if b in ancestors1 || a in ancestors2 then false
      else AnyIn(ancestors1, ancestors2)
  }

  /** `is_unrelated(a, b)`: a person is unrelated to themself; otherwise none
      of child, sibling, cousin or ancestor may hold in either direction. */
  predicate IsUnrelated(db: map<string, Rec>, a: string, b: string)
    requires Acyclic(db) && a in db && b in db
  {
    if a == b then true
    else if IsChild(db, a, b) || IsChild(db, b, a) then false
    else if IsSibling(db, a, b) then false
    else if IsCousin(db, a, b) then false
    else if IsAncestor(db, a, b) || IsAncestor(db, b, a) then false
    else true
  }

  /** `is_ancestor` one generation at a time. */
  lemma AncestorStep(db: map<string, Rec>, a: string, b: string)
    requires Acyclic(db) && b in db && ParentsStored(db, b)
    ensures IsAncestor(db, a, b) <==>
      (db[b].parent1.Some? && db[b].parent2.Some? &&
       (Some(a) == db[b].parent1 || Some(a) == db[b].parent2
        || IsAncestor(db, a, db[b].parent1.value) || IsAncestor(db, a, db[b].parent2.value)))
  {
    if db[b].parent1.Some? && db[b].parent2.Some? {
      AncestorsOfParents(db, b);
      assert a in Ancestors(db, b) <==> a in multiset(Ancestors(db, b));
    }
  }

  /** Each parent of a child is among the child's ancestors. */
  lemma ChildIsAncestor(db: map<string, Rec>, a: string, b: string)
    requires Acyclic(db) && a in db && IsChild(db, a, b)
    ensures IsAncestor(db, b, a)
  {
    var rank := RankOf(db);
    assert Older(db, rank, db[a].parent1, rank[a]) && Older(db, rank, db[a].parent2, rank[a]);
    AncestorStep(db, b, a);
  }

  /** Nobody is their own child. */
  lemma NotOwnChild(db: map<string, Rec>, a: string)
    requires Acyclic(db) && a in db
    ensures !IsChild(db, a, a)
  {
    if IsChild(db, a, a) {
      ChildIsAncestor(db, a, a);
      AncestryAcyclic(db, a, a);
    }
  }

  /** Nobody is their own ancestor, and ancestry never runs both ways. */
  lemma AncestryAcyclic(db: map<string, Rec>, a: string, b: string)
    requires Acyclic(db) && a in db && b in db
    ensures !IsAncestor(db, a, a)
    ensures IsAncestor(db, a, b) ==> !IsAncestor(db, b, a)
  {
    AncestorsOlder(db, a);
    AncestorsOlder(db, b);
  }

  /** `is_sibling` does not depend on the order of its arguments. */
  lemma SiblingSymmetric(db: map<string, Rec>, a: string, b: string)
    requires a in db && b in db
    ensures IsSibling(db, a, b) <==> IsSibling(db, b, a)
  {
  }

  /** `is_cousin` does not depend on the order of its arguments. */
  lemma CousinSymmetric(db: map<string, Rec>, a: string, b: string)
    requires Acyclic(db) && a in db && b in db
    ensures IsCousin(db, a, b) <==> IsCousin(db, b, a)
  {
    var ancestors1, ancestors2 := Ancestors(db, a), Ancestors(db, b);
    assert AnyIn(ancestors1, ancestors2) <==> AnyIn(ancestors2, ancestors1);
  }

  /** `is_unrelated` does not depend on the order of its arguments. */
  lemma UnrelatedSymmetric(db: map<string, Rec>, a: string, b: string)
    requires Acyclic(db) && a in db && b in db
    ensures IsUnrelated(db, a, b) <==> IsUnrelated(db, b, a)
  {
    CousinSymmetric(db, a, b);
  }

  /** A person is unrelated to themself, and neither their own sibling nor
      their own cousin. */
  lemma SelfRelations(db: map<string, Rec>, a: string)
    requires Acyclic(db) && a in db
    ensures IsUnrelated(db, a, a)
    ensures !IsSibling(db, a, a) && !IsCousin(db, a, a)
  {
  }

  /** For different persons `is_unrelated` holds exactly when none of child
      (either way), sibling, cousin and ancestor (either way) does. */
  lemma UnrelatedIffNoRelation(db: map<string, Rec>, a: string, b: string)
    requires Acyclic(db) && a in db && b in db && a != b
    ensures IsUnrelated(db, a, b) <==>
      !(IsChild(db, a, b) || IsChild(db, b, a) || IsSibling(db, a, b) || IsCousin(db, a, b)
        || IsAncestor(db, a, b) || IsAncestor(db, b, a))
  {
  }

  /** In a well-formed tree `is_spouse` does not depend on the order of its
      arguments. */
  lemma SpouseSymmetric(db: map<string, Rec>, a: string, b: string)
    requires WellFormed(db) && a in db && b in db
    ensures IsSpouse(db, a, b) <==> IsSpouse(db, b, a)
  {
  }

  // ---------------------------------------------------------------------
  // get_cousins and get_unrelated
  // ---------------------------------------------------------------------

  /** `get_cousins(tree, tree[person])`: every stored name that is a cousin of
      `person`, sorted; never the person's own name. */
  method GetCousins(db: map<string, Rec>, person: string) returns (result: seq<string>)
    requires Acyclic(db) && person in db
    ensures Sorted(result) && NoDup(result)
    ensures forall k :: k in result <==> k in db && IsCousin(db, person, k)
    ensures person !in result
  {
    result := [];
    var entries := db.Keys;
    while entries != {}
      invariant entries <= db.Keys
      invariant NoDup(result)
      invariant forall k :: k in result <==> k in db && k !in entries && IsCousin(db, person, k)
      decreases entries
    {
      var cousin :| cousin in entries;
      if IsCousin(db, person, cousin) {
        result := result + [cousin];
      }
      entries := entries - {cousin};
    }
    var unsorted := result;
    result := Sort(result);
    NoDupPerm(unsorted, result);
  }

  /** `get_unrelated(tree, tree[person])`: every stored name unrelated to
      `person`, sorted; the person's own name is among them. */
  method GetUnrelated(db: map<string, Rec>, person: string) returns (result: seq<string>)
    requires Acyclic(db) && person in db
    ensures Sorted(result) && NoDup(result)
    ensures forall k :: k in result <==> k in db && IsUnrelated(db, person, k)
    ensures person in result
  {
    result := [];
    var entries := db.Keys;
    while entries != {}
      invariant entries <= db.Keys
      invariant NoDup(result)
      invariant forall k :: k in result <==> k in db && k !in entries && IsUnrelated(db, person, k)
      decreases entries
    {
      var unrelated :| unrelated in entries;
      if IsUnrelated(db, person, unrelated) {
        result := result + [unrelated];
      }
      entries := entries - {unrelated};
    }
    var unsorted := result;
    result := Sort(result);
    NoDupPerm(unsorted, result);
  }

  // ---------------------------------------------------------------------
  // The tree and the `E` branch of main
  // ---------------------------------------------------------------------

  /** The `tree` dictionary of `main`, updated in place by the `E` branch. */
  class Tree {
    var people: map<string, Rec>

    ghost predicate Valid()
      reads this
    {
      WellFormed(people)
    }

    /** `tree = dict()`. */
    constructor ()
      ensures Valid() && people == map[]
    {
      assert Ranked(map[], map[]);
      people := map[];
    }

    /** `add_spouse(tree[person], tree[spouse])`, updating the stored
        dictionary in place. */
    method AddSpouse(person: string, spouse: string)
      requires person in people
      modifies this
      ensures people == WithSpouse(old(people), person, spouse)
    {
      var record := people[person];
      var spouses := record.spouses + [spouse];
      spouses := Sort(spouses);
      people := people[person := record.(spouses := spouses)];
    }

    /** `add_child(tree[person], tree[child])`, updating the stored
        dictionary in place. */
    method AddChild(person: string, child: string)
      requires person in people
      modifies this
      ensures people == WithChild(old(people), person, child)
    {
      var record := people[person];
      var children := record.children + [child];
      children := Sort(children);
      people := people[person := record.(children := children)];
    }

    /** "Initialize person": create and store a parentless record for a name
        not in the tree. */
    method Initialize(name: string)
      modifies this
      ensures people == Obtained(old(people), name)
    {
      if name !in people {
        var person := CreatePerson(name, None, None);
        people := people[name := person];
      }
    }

    /** `E a b`: a new marriage. */
    method Marry(a: string, b: string)
      requires Valid()
      modifies this
      ensures Valid()
      ensures people == AfterMarriage(old(people), a, b)
    {
      MarriageKeeps(people, a, b);
      Initialize(a);
      Initialize(b);
      AddSpouse(a, b);
      AddSpouse(b, a);
    }

    /** `E a b c`: a new child; `created` is false when the program printed
        "already exists" and created nothing. */
    method NewChild(a: string, b: string, c: string) returns (created: bool)
      requires Valid()
      modifies this
      ensures Valid()
      ensures people == AfterChild(old(people), a, b, c)
      ensures !created <==> c in old(people) || c == a || c == b
    {
      ChildKeeps(people, a, b, c);
      Initialize(a);
      Initialize(b);
      if c in people {
        created := false;
      } else {
        var person3 := CreatePerson(c, Some(a), Some(b));
        people := people[c := person3];
        AddChild(a, c);
        AddChild(b, c);
        created := true;
      }
    }
  }
}
