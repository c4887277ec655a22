/**
  The name-to-person dictionary (FamilyTree.py) and the whole-tree
  enumerations `get_cousins` and `get_unrelated`.

  `Repr` is every Person the program has created, including a record that a
  later `add_person` under the same name displaced from the dictionary (it can
  still be a child's `parent1`, see Commands).  `Valid()` is the invariant the
  insertion commands keep.
 */
module FamilyTreeModel {
  import opened ListOps
  import opened PersonModel

  /** Every entry is stored under its own name. */
  ghost predicate Keyed(tree: map<string, Person>, repr: set<Person>)
  {
    forall k :: k in tree ==> tree[k] in repr && tree[k].name == k
  }

  /** Every person has two parents or none, both known and created before
      the person, and shares its name and rank with the entry stored under
      that name. */
  ghost predicate Linked(tree: map<string, Person>, repr: set<Person>)
  {
    && (forall p :: p in repr ==>
          p.ParentsPaired() && p.name in tree && tree[p.name].rank == p.rank)
    && (forall p :: p in repr && p.parent1 != null ==> p.parent1 in repr && p.parent1.rank < p.rank)
    && (forall p :: p in repr && p.parent2 != null ==> p.parent2 in repr && p.parent2.rank < p.rank)
  }

  /** Following parent links from a known person only ever reaches known,
      older persons, so every known person is well-ranked. */
  lemma {:induction false} LinkedRanked(tree: map<string, Person>, repr: set<Person>, p: Person)
    requires Linked(tree, repr) && p in repr
    ensures p.Ranked()
    decreases p.rank
  {
    if p.parent1 != null {
      LinkedRanked(tree, repr, p.parent1);
    }
    if p.parent2 != null {
      LinkedRanked(tree, repr, p.parent2);
    }
  }

  lemma AllRanked(tree: map<string, Person>, repr: set<Person>)
    requires Linked(tree, repr)
    ensures forall p :: p in repr ==> p.Ranked()
  {
    forall p | p in repr ensures p.Ranked() {
      LinkedRanked(tree, repr, p);
    }
  }

  /** `c` is on the children list of `p`. */
  ghost predicate ListsChild(p: Person, c: string)
    reads p`children
  {
    c in p.children
  }

  /** Both parents of every known person list the person among their
      children. */
  ghost predicate ChildrenListed(repr: set<Person>)
    reads repr`children
  {
    forall p :: p in repr && p.parent1 in repr && p.parent2 in repr ==>
      ListsChild(p.parent1, p.name) && ListsChild(p.parent2, p.name)
  }

  /** Children lists that only grew keep every child listed. */
  twostate lemma ChildrenGrow(repr: set<Person>)
    requires old(ChildrenListed(repr))
    requires forall q, x :: q in repr && old(ListsChild(q, x)) ==> ListsChild(q, x)
    ensures ChildrenListed(repr)
  {
  }

  /** The spouse list of every stored person, by name. */
  ghost function SpouseMap(tree: map<string, Person>): (m: map<string, seq<string>>)
    reads tree.Values`spouses
  {
    map k | k in tree :: tree[k].spouses
  }

  /** Every list holds names of entries, and each entry `s` on the list of
      `k` lists `k` in turn. */
  ghost predicate Symmetric(m: map<string, seq<string>>)
  {
    forall k, s :: k in m && s in m[k] ==> s in m && k in m[s]
  }

  /** Spouse lists hold names of stored persons, and marriages are recorded
      on both sides. */
  ghost predicate SpousesListed(tree: map<string, Person>)
    reads tree.Values`spouses
  {
    forall k, s :: ListsSpouse(tree, k, s) ==> ListsSpouse(tree, s, k)
  }

  /** `s` is on the spouse list of the person stored under `k`. */
  ghost predicate ListsSpouse(tree: map<string, Person>, k: string, s: string)
    reads tree.Values`spouses
  {
    k in tree && s in tree[k].spouses
  }

  lemma SpousesListedMap(tree: map<string, Person>)
    ensures SpousesListed(tree) <==> Symmetric(SpouseMap(tree))
  {
    var m := SpouseMap(tree);
    assert m.Keys == tree.Keys;
    forall k, s ensures ListsSpouse(tree, k, s) <==> k in m && s in m[k] {
    }
    if SpousesListed(tree) {
      forall k, s | k in m && s in m[k] ensures s in m && k in m[s] {
        assert ListsSpouse(tree, k, s);
      }
    }
    if Symmetric(m) {
      forall k, s | ListsSpouse(tree, k, s) ensures ListsSpouse(tree, s, k) {
        assert k in m && s in m[k];
      }
    }
  }

  /** Storing a person under its own name keeps every entry under its name. */
  lemma KeyedAdd(tree: map<string, Person>, repr: set<Person>, p: Person)
    requires Keyed(tree, repr)
    ensures Keyed(tree[p.name := p], repr + {p})
  {
  }

  /** Storing a parentless person created now keeps the links, provided the
      name is new or held another parentless person. */
  lemma LinkedAddParentless(tree: map<string, Person>, repr: set<Person>, p: Person)
    requires Linked(tree, repr)
    requires p.parent1 == null && p.parent2 == null && p.rank == 1
    requires p.name in tree ==> tree[p.name].rank == 1
    ensures Linked(tree[p.name := p], repr + {p})
  {
  }

  /** Storing a child of two known persons under a new name keeps the links. */
  lemma LinkedAddChild(tree: map<string, Person>, repr: set<Person>, p: Person)
    requires Linked(tree, repr) && p.name !in tree
    requires p.parent1 in repr && p.parent2 in repr && p.parent1.rank < p.rank && p.parent2.rank < p.rank
    ensures Linked(tree[p.name := p], repr + {p})
  {
  }

  /** A person created now without parents is nobody's child and has no
      parents, so every child stays listed. */
  lemma ChildrenAddParentless(tree: map<string, Person>, repr: set<Person>, p: Person)
    requires ChildrenListed(repr) && Linked(tree, repr) && p !in repr && p.parent1 == null
    ensures ChildrenListed(repr + {p})
  {
  }

  /** A child created now from two known persons that already list it is
      nobody's parent yet, so every child stays listed. */
  lemma ChildrenBorn(tree: map<string, Person>, repr: set<Person>, child: Person)
    requires ChildrenListed(repr) && Linked(tree, repr) && child !in repr
    requires child.parent1 in repr && child.parent2 in repr
    requires ListsChild(child.parent1, child.name) && ListsChild(child.parent2, child.name)
    ensures ChildrenListed(repr + {child})
  {
  }

  /** Storing an unmarried person keeps the marriages symmetric, provided the
      name is new or held another unmarried person. */
  lemma SpousesAddUnmarried(tree: map<string, Person>, p: Person)
    requires SpousesListed(tree) && p.spouses == []
    requires p.name in tree ==> tree[p.name].spouses == []
    ensures SpousesListed(tree[p.name := p])
  {
    var tree' := tree[p.name := p];
    forall k, s | ListsSpouse(tree', k, s) ensures ListsSpouse(tree', s, k) {
      assert k != p.name && ListsSpouse(tree, k, s);
      assert ListsSpouse(tree, s, k);
    }
  }

  /** Appending `b` to the list of `a` and `a` to the list of `b`, and
      changing no other list, keeps the lists symmetric. */
  lemma SpousesMarried(before: map<string, seq<string>>, after: map<string, seq<string>>, a: string, b: string)
    requires Symmetric(before) && a in before && b in before && after.Keys == before.Keys
    requires forall s :: s in after[a] <==> s in before[a] || s == b
    requires forall s :: s in after[b] <==> s in before[b] || s == a
    requires forall k :: k in before && k != a && k != b ==> after[k] == before[k]
    ensures Symmetric(after)
  {
  }

  class FamilyTree {
    var tree: map<string, Person>
    ghost var Repr: set<Person>

    /** The invariant the insertion commands keep. */
    ghost predicate Valid()
      reads this, Repr
    {
      Keyed(tree, Repr) && Linked(tree, Repr) && ChildrenListed(Repr) && SpousesListed(tree)
    }

    /** `FamilyTree()`: an empty dictionary. */
    constructor ()
      ensures Valid() && tree == map[] && Repr == {}
    {
      tree := map[];
      Repr := {};
    }

    /** `add_person`: store the person under its name, replacing any entry
        with that name. */
    method AddPerson(person: Person)
      modifies this
      ensures tree == old(tree)[person.name := person]
      ensures Repr == old(Repr) + {person}
    {
      tree := tree[person.name := person];
      Repr := Repr + {person};
    }

    /** `get_person`: the stored person, or None (null) for an unknown name. */
    function GetPerson(name: string): (r: Person?)
      reads this
      ensures r == null <==> name !in tree
      ensures r != null ==> r == tree[name]
    {
      if name !in tree then null else tree[name]
    }

    /** The spouse list of the person stored under `name` (empty if none). */
    ghost function SpousesOf(name: string): seq<string>
      reads this, tree.Values
    {
      if name in tree then tree[name].spouses else []
    }

    /** The children list of the person stored under `name` (empty if none). */
    ghost function ChildrenOf(name: string): seq<string>
      reads this, tree.Values
    {
      if name in tree then tree[name].children else []
    }

    /** `get_cousins`: every stored name whose person is a cousin of `person`,
        sorted; never the person's own name. */
    method GetCousins(person: Person) returns (cousins: seq<string>)
      requires Keyed(tree, Repr) && person.Ranked() && forall k :: k in tree ==> tree[k].Ranked()
      ensures Sorted(cousins) && NoDup(cousins)
      ensures forall k :: k in cousins <==> k in tree && person.IsCousin(tree[k])
      ensures person.name !in cousins
    {
      cousins := [];
      var entries := tree.Keys;
      while entries != {}
        invariant entries <= tree.Keys
        invariant NoDup(cousins)
        invariant forall k :: k in cousins <==> k in tree && k !in entries && person.IsCousin(tree[k])
        decreases entries
      {
        var entry :| entry in entries;
        if person.IsCousin(tree[entry]) {
          cousins := cousins + [entry];
        }
        entries := entries - {entry};
      }
      var unsorted := cousins;
      cousins := Sort(cousins);
      NoDupPerm(unsorted, cousins);
    }

    /** `get_unrelated`: every stored name whose person is unrelated to
        `person`, sorted; it includes the person's own name when stored. */
    method GetUnrelated(person: Person) returns (unrelated: seq<string>)
      requires Keyed(tree, Repr) && person.Ranked() && forall k :: k in tree ==> tree[k].Ranked()
      ensures Sorted(unrelated) && NoDup(unrelated)
      ensures forall k :: k in unrelated <==> k in tree && person.IsUnrelated(tree[k])
      ensures person.name in tree ==> person.name in unrelated
    {
      unrelated := [];
      var entries := tree.Keys;
      while entries != {}
        invariant entries <= tree.Keys
        invariant NoDup(unrelated)
        invariant forall k :: k in unrelated <==> k in tree && k !in entries && person.IsUnrelated(tree[k])
        decreases entries
      {
        var entry :| entry in entries;
        if person.IsUnrelated(tree[entry]) {
          unrelated := unrelated + [entry];
        }
        entries := entries - {entry};
      }
      var unsorted := unrelated;
      unrelated := Sort(unrelated);
      NoDupPerm(unsorted, unrelated);
    }
  }

  /** On a valid tree every stored person is well-ranked, which is what
      `get_cousins` and `get_unrelated` need to terminate. */
  lemma StoredRanked(t: FamilyTree)
    requires t.Valid()
    ensures forall k :: k in t.tree ==> t.tree[k].Ranked()
  {
    AllRanked(t.tree, t.Repr);
  }

  /** Every name in a known person's ancestor list is stored, under a person
      created before them. */
  lemma {:induction false} AncestorRanks(t: FamilyTree, p: Person)
    requires t.Valid() && p in t.Repr
    ensures p.Ranked()
    ensures forall x :: x in p.Ancestors() ==> x in t.tree && t.tree[x].rank < p.rank
    decreases p.rank
  {
    LinkedRanked(t.tree, t.Repr, p);
    if p.parent1 != null && p.parent2 != null {
      AncestorRanks(t, p.parent1);
      AncestorRanks(t, p.parent2);
      AncestorsOfParents(p);
      forall x | x in p.Ancestors() ensures x in t.tree && t.tree[x].rank < p.rank {
        assert x in multiset(p.Ancestors());
      }
    }
  }

  /** Parent links are acyclic: nobody is their own ancestor, and ancestry
      never holds both ways. */
  lemma AncestryAcyclic(t: FamilyTree, p: Person, q: Person)
    requires t.Valid() && p in t.Repr && q in t.Repr
    ensures p.Ranked() && q.Ranked()
    ensures !p.IsAncestor(p)
    ensures p.IsAncestor(q) ==> !q.IsAncestor(p)
  {
    AncestorRanks(t, p);
    AncestorRanks(t, q);
  }

  /** Nobody is their own child. */
  lemma NotOwnChild(t: FamilyTree, p: Person)
    requires t.Valid() && p in t.Repr
    ensures !p.IsChild(p)
  {
    if p.IsChild(p) {
      ChildIsAncestor(p, p);
      AncestryAcyclic(t, p, p);
    }
  }

  /** A known person with parents is listed among them, so `get_siblings`
      can be asked of them without `list.remove` failing. */
  lemma SiblingsDefined(t: FamilyTree, p: Person)
    requires t.Valid() && p in t.Repr && p.parent1 != null
    ensures p.name in p.Collected()
  {
    assert p.parent1 in t.Repr && p.parent2 in t.Repr;
    assert ListsChild(p.parent1, p.name);
  }

  /** `is_spouse` on stored persons does not depend on the argument order. */
  lemma SpouseSymmetric(t: FamilyTree, j: string, k: string)
    requires t.Valid() && j in t.tree && k in t.tree
    ensures t.tree[j].IsSpouse(t.tree[k]) <==> t.tree[k].IsSpouse(t.tree[j])
  {
    assert ListsSpouse(t.tree, j, k) <==> ListsSpouse(t.tree, k, j);
  }

  /** On a valid tree `is_sibling` and `is_unrelated` are symmetric too. */
  lemma RelationsSymmetric(t: FamilyTree, p: Person, q: Person)
    requires t.Valid() && p in t.Repr && q in t.Repr
    ensures p.Ranked() && q.Ranked()
    ensures p.IsSibling(q) <==> q.IsSibling(p)
    ensures p.IsUnrelated(q) <==> q.IsUnrelated(p)
  {
    LinkedRanked(t.tree, t.Repr, p);
    LinkedRanked(t.tree, t.Repr, q);
    SiblingSymmetric(p, q);
    UnrelatedSymmetric(p, q);
  }
}
