/**
  One member of the family tree (Person.py).  The parent links are object
  references fixed when the person is created; the spouse and children lists
  hold names and grow in place.  `rank` is a proof-only creation rank: a
  person is created from parents that already exist, so every parent has a
  smaller rank than its child, which is what makes ancestry well-founded.
 */
module PersonModel {
  import opened ListOps

  class Person {
    const name: string
    const parent1: Person?
    const parent2: Person?
    var spouses: seq<string>
    var children: seq<string>
    ghost const rank: nat

    /** Every parent, transitively, was created before its child. */
    ghost predicate Ranked()
      decreases rank
    {
      && (parent1 != null ==> parent1.rank < rank && parent1.Ranked())
      && (parent2 != null ==> parent2.rank < rank && parent2.Ranked())
    }

    /** Both parent links are set, or neither is. */
    predicate ParentsPaired()
    {
      (parent1 == null) == (parent2 == null)
    }

    /** `Person(name, parent1, parent2)`: no spouses and no children yet. */
    constructor (name: string, parent1: Person?, parent2: Person?)
      requires parent1 != null ==> parent1.Ranked()
      requires parent2 != null ==> parent2.Ranked()
      ensures this.name == name && this.parent1 == parent1 && this.parent2 == parent2
      ensures spouses == [] && children == []
      ensures Ranked()
      ensures rank == 1 + (if parent1 == null then 0 else parent1.rank)
                        + (if parent2 == null then 0 else parent2.rank)
    {
      this.name := name;
      this.parent1 := parent1;
      this.parent2 := parent2;
      spouses := [];
      children := [];
      rank := 1 + (if parent1 == null then 0 else parent1.rank)
                + (if parent2 == null then 0 else parent2.rank);
    }

    /** `add_spouse`: append the spouse's name, then sort. */
    method AddSpouse(spouse: Person)
      modifies this`spouses
      ensures spouses == Sort(old(spouses) + [spouse.name])
      ensures children == old(children)
    {
      spouses := spouses + [spouse.name];
      spouses := Sort(spouses);
    }

    /** `add_child`: append the child's name, then sort. */
    method AddChild(child: Person)
      modifies this`children
      ensures children == Sort(old(children) + [child.name])
      ensures spouses == old(spouses)
    {
      children := children + [child.name];
      children := Sort(children);
    }

    /** The list `get_ancestors` returns: both parents' names and, recursively,
        both parents' ancestors, sorted, duplicates kept. */
    function Ancestors(): (r: seq<string>)
      requires Ranked()
      decreases rank
      ensures Sorted(r)
      ensures parent1 == null || parent2 == null ==> |r| == 0
      ensures parent1 != null && parent2 != null ==> |r| >= 2
      ensures parent1 != null && parent2 != null ==> parent1.name in r && parent2.name in r
    {
      if parent1 == null || parent2 == null then []
      else Sort([parent1.name, parent2.name] + parent1.Ancestors() + parent2.Ancestors())
    }

    /** `get_ancestors`, with its appending loops. */
    method GetAncestors() returns (ancestors: seq<string>)
      requires Ranked()
      decreases rank
      ensures ancestors == Ancestors()
    {
      ancestors := [];
      if parent1 == null || parent2 == null {
        return;
      }
      ancestors := ancestors + [parent1.name];
      ancestors := ancestors + [parent2.name];
      assert ancestors == [parent1.name, parent2.name];
      var ancestors1 := parent1.GetAncestors();
      ancestors := AppendEach(ancestors, ancestors1);
      var ancestors2 := parent2.GetAncestors();
      ancestors := AppendEach(ancestors, ancestors2);
      ancestors := Sort(ancestors);
    }

    /** The list `get_siblings` has gathered before removing the person:
        parent1's children, then those of parent2's children not yet present. */
    function Collected(): (r: seq<string>)
      reads parent1, parent2
      ensures forall x :: x in r <==>
        (parent1 != null && x in parent1.children) || (parent2 != null && x in parent2.children)
    {
      AppendNew(if parent1 != null then parent1.children else [],
                if parent2 != null then parent2.children else [])
    }

    /** The list `get_siblings` returns.  Python's `list.remove` raises when the
        person's own name was not gathered, hence the precondition. */
    function Siblings(): (r: seq<string>)
      reads parent1, parent2
      requires name in Collected()
      ensures Sorted(r)
      ensures forall x :: x != name ==> (x in r <==>
        (parent1 != null && x in parent1.children) || (parent2 != null && x in parent2.children))
      ensures name in r <==> multiset(Collected())[name] >= 2
    {
      var gathered := RemoveFirst(Collected(), name);
      assert multiset(gathered)[name] == multiset(Collected())[name] - 1;
      assert name in gathered <==> name in multiset(gathered);
      Sort(gathered)
    }

    /** `get_siblings`, with its two gathering loops. */
    method GetSiblings() returns (siblings: seq<string>)
      requires name in Collected()
      ensures siblings == Siblings()
    {
      siblings := [];
      if parent1 != null {
        siblings := AppendEach(siblings, parent1.children);
      }
      assert siblings == (if parent1 != null then parent1.children else []);
      if parent2 != null {
        siblings := AppendMissing(siblings, parent2.children);
      }
      assert siblings == Collected();
      siblings := RemoveFirst(siblings, name);
      siblings := Sort(siblings);
    }

    /** `equals`: persons are the same when their names are. */
    predicate Equals(person2: Person)
    {
      name == person2.name
    }

    /** `is_child`: this person is a child of `person2`. */
    predicate IsChild(person2: Person)
    {
      if parent1 == null || parent2 == null then false
      else parent1.Equals(person2) || parent2.Equals(person2)
    }

    /** `is_spouse`: `person2` has ever married this person. */
    predicate IsSpouse(person2: Person)
      reads this
    {
      person2.name in spouses
    }

    /** `is_sibling`: the two share a parent (half-siblings included); only
        `person2`'s parents are checked for being set. */
    predicate IsSibling(person2: Person)
    {
      if Equals(person2) then false
      else if person2.parent1 == null || person2.parent2 == null then false
      else if parent1 != null && (parent1.Equals(person2.parent1) || parent1.Equals(person2.parent2)) then true
      else if parent2 != null && (parent2.Equals(person2.parent1) || parent2.Equals(person2.parent2)) then true
      else false
    }

    /** `is_ancestor`: this person's name is among `person2`'s ancestors. */
    predicate IsAncestor(person2: Person)
      requires person2.Ranked()
    {
      name in person2.Ancestors()
    }

    /** `is_cousin`: a shared ancestor, with self, a direct parent and child
        either way, and an ancestor either way excluded first. */
    predicate IsCousin(person2: Person)
      requires Ranked() && person2.Ranked()
    {
      if Equals(person2) then false
      else if IsChild(person2) || person2.IsChild(this) then false
      else
        var ancestors1 := Ancestors();
        var ancestors2 := person2.Ancestors();
        if person2.name in ancestors1 || name in ancestors2 then false
        else AnyIn(ancestors1, ancestors2)
    }

    /** `is_unrelated`: a person is unrelated to themself; otherwise none of
        child, sibling, cousin or ancestor may hold in either direction. */
    predicate IsUnrelated(person2: Person)
      requires Ranked() && person2.Ranked()
    {
      if Equals(person2) then true
      else if IsChild(person2) || person2.IsChild(this) then false
      else if IsSibling(person2) then false
      else if IsCousin(person2) then false
      else if IsAncestor(person2) || person2.IsAncestor(this) then false
      else true
    }
  }

  /** The ancestor list holds both parents' names and each parent's ancestors,
      every occurrence kept. */
  lemma AncestorsOfParents(p: Person)
    requires p.Ranked() && p.parent1 != null && p.parent2 != null
    ensures multiset(p.Ancestors()) == multiset{p.parent1.name, p.parent2.name}
      + multiset(p.parent1.Ancestors()) + multiset(p.parent2.Ancestors())
    ensures |p.Ancestors()| == 2 + |p.parent1.Ancestors()| + |p.parent2.Ancestors()|
  {
    var gathered := [p.parent1.name, p.parent2.name] + p.parent1.Ancestors() + p.parent2.Ancestors();
    assert multiset(gathered) == multiset([p.parent1.name, p.parent2.name])
      + multiset(p.parent1.Ancestors()) + multiset(p.parent2.Ancestors());
  }

  /** `is_ancestor` one generation at a time: `q` is an ancestor of `p` exactly
      when `p` has both parents and `q` is named like one of them or is an
      ancestor of one of them. */
  lemma AncestorStep(q: Person, p: Person)
    requires p.Ranked()
    ensures q.IsAncestor(p) <==>
      (p.parent1 != null && p.parent2 != null &&
       (q.Equals(p.parent1) || q.Equals(p.parent2) || q.IsAncestor(p.parent1) || q.IsAncestor(p.parent2)))
  {
    if p.parent1 != null && p.parent2 != null {
      AncestorsOfParents(p);
      assert q.name in p.Ancestors() <==> q.name in multiset(p.Ancestors());
    }
  }

  /** Each parent of a child is among the child's ancestors. */
  lemma ChildIsAncestor(p: Person, q: Person)
    requires p.Ranked() && p.IsChild(q)
    ensures q.IsAncestor(p)
  {
    AncestorStep(q, p);
  }

  /** `is_cousin` does not depend on the order of its arguments. */
  lemma CousinSymmetric(p: Person, q: Person)
    requires p.Ranked() && q.Ranked()
    ensures p.IsCousin(q) <==> q.IsCousin(p)
  {
  }

  /** `is_sibling` guards only its argument's parents; for persons with two
      parents or none it does not depend on the order of its arguments. */
  lemma SiblingSymmetric(p: Person, q: Person)
    requires p.ParentsPaired() && q.ParentsPaired()
    ensures p.IsSibling(q) <==> q.IsSibling(p)
  {
  }

  /** A person is unrelated to themself, and neither their own child,
      sibling, cousin nor ancestor. */
  lemma SelfRelations(p: Person)
    requires p.Ranked()
    ensures p.IsUnrelated(p)
    ensures !p.IsSibling(p) && !p.IsCousin(p)
  {
  }

  /** For persons with different names, `is_unrelated` holds exactly when none
      of child (either way), sibling, cousin and ancestor (either way) does;
      marriage does not count as a relation. */
  lemma UnrelatedIffNoRelation(p: Person, q: Person)
    requires p.Ranked() && q.Ranked() && !p.Equals(q)
    ensures p.IsUnrelated(q) <==>
      !(p.IsChild(q) || q.IsChild(p) || p.IsSibling(q) || p.IsCousin(q) || p.IsAncestor(q) || q.IsAncestor(p))
  {
  }

  /** `is_unrelated` does not depend on the order of its arguments for persons
      with two parents or none. */
  lemma UnrelatedSymmetric(p: Person, q: Person)
    requires p.Ranked() && q.Ranked() && p.ParentsPaired() && q.ParentsPaired()
    ensures p.IsUnrelated(q) <==> q.IsUnrelated(p)
  {
    SiblingSymmetric(p, q);
    CousinSymmetric(p, q);
  }

  /** Siblings share a parent, which is an ancestor of both, so `is_cousin`
      also holds for them unless one is the other's child or ancestor. */
  lemma SiblingsAreCousins(p: Person, q: Person)
    requires p.Ranked() && q.Ranked() && p.ParentsPaired() && p.IsSibling(q)
    requires !p.IsChild(q) && !q.IsChild(p) && !p.IsAncestor(q) && !q.IsAncestor(p)
    ensures p.IsCousin(q)
  {
    AncestorStep(p.parent1, p);
    AncestorStep(p.parent1, q);
    AncestorStep(p.parent2, p);
    AncestorStep(p.parent2, q);
    if p.parent1.Equals(q.parent1) || p.parent1.Equals(q.parent2) {
      assert p.parent1.name in p.Ancestors() && p.parent1.name in q.Ancestors();
    } else {
      assert p.parent2.name in p.Ancestors() && p.parent2.name in q.Ancestors();
    }
  }

  /** When one person is both parents and lists the child twice, the child
      is gathered twice, `list.remove` drops one copy and the child is among
      its own siblings. */
  lemma SharedParentOwnSibling(c: Person)
    requires c.parent1 != null && c.parent2 == c.parent1
    requires multiset(c.parent1.children)[c.name] >= 2
    ensures c.name in c.Collected() && c.name in c.Siblings()
  {
    var children := c.parent1.children;
    var gathered := c.Collected();
    assert gathered == children + gathered[|children|..];
    assert multiset(gathered)[c.name] >= 2;
  }
}
