/**
  The insertion commands of the command loop (main.py, branch `E`):
  `E a b` records a marriage and `E a b c` a child of `a` and `b`.  Both
  look `a` and `b` up first and only then create whichever was missing,
  so `E a a` with `a` unknown creates two parentless persons named `a`; the
  second replaces the first in the dictionary, and the first stays reachable
  only as the new child's `parent1` (it is kept in `Repr`).
 */
module Commands {
  import opened ListOps
  import opened PersonModel
  import opened FamilyTreeModel

  /** `Person(name, None, None)` followed by `add_person`; the tree stays
      valid when the name is new or only held a person created moments ago
      (parentless and unmarried). */
  method CreateParentless(t: FamilyTree, name: string) returns (p: Person)
    requires t.Valid()
    requires name in t.tree ==> t.tree[name].rank == 1 && t.tree[name].spouses == []
    modifies t
    ensures t.Valid()
    ensures fresh(p) && p.name == name && p.parent1 == null && p.parent2 == null && p.rank == 1
    ensures p.spouses == [] && p.children == []
    ensures t.tree == old(t.tree)[name := p] && t.Repr == old(t.Repr) + {p}
  {
    ghost var tree0, repr0 := t.tree, t.Repr;
    p := new Person(name, null, null);
    t.AddPerson(p);
    KeyedAdd(tree0, repr0, p);
    LinkedAddParentless(tree0, repr0, p);
    ChildrenAddParentless(tree0, repr0, p);
    SpousesAddUnmarried(tree0, p);
  }

  /** One half of the opening of both commands: reuse the person an earlier
      lookup found, or create one when it found nothing. */
  method Obtain(t: FamilyTree, name: string, found: Person?) returns (p: Person)
    requires t.Valid()
    requires found != null ==> name in t.tree && found == t.tree[name]
    requires found == null && name in t.tree ==> t.tree[name].rank == 1 && t.tree[name].spouses == []
    modifies t
    ensures t.Valid() && p.name == name && name in t.tree && p == t.tree[name]
    ensures forall k :: k in t.tree <==> k in old(t.tree) || k == name
    ensures forall k :: k in old(t.tree) && k != name ==> t.tree[k] == old(t.tree[k])
    ensures forall q :: q in t.Repr <==> q in old(t.Repr) || q == p
    ensures fresh(t.Repr - old(t.Repr))
    ensures found != null ==> p == found && t.tree == old(t.tree) && t.Repr == old(t.Repr)
    ensures found == null ==>
      fresh(p) && p.parent1 == null && p.parent2 == null && p.rank == 1 && p.spouses == [] && p.children == []
    ensures forall q :: q in old(t.Repr) ==> q.children == old(q.children) && q.spouses == old(q.spouses)
  {
    if found == null {
      p := CreateParentless(t, name);
    } else {
      p := found;
    }
  }

  /** The shared opening of both commands: look up `a` and `b`, then create
      whichever lookup found nothing, `a` first. */
  method Vivify(t: FamilyTree, a: string, b: string) returns (person1: Person, person2: Person)
    requires t.Valid()
    modifies t
    ensures t.Valid()
    ensures forall k :: k in t.tree <==> k in old(t.tree) || k == a || k == b
    ensures forall k :: k in old(t.tree) ==> k in t.tree && t.tree[k] == old(t.tree[k])
    ensures person1.name == a && person2 == t.tree[b] && person1 in t.Repr
    ensures a != b || a in old(t.tree) ==> person1 == t.tree[a]
    ensures forall p :: p in t.Repr <==> p in old(t.Repr) || p == person1 || p == person2
    ensures fresh(t.Repr - old(t.Repr))
    ensures a !in old(t.tree) ==>
      fresh(person1) && person1.parent1 == null && person1.parent2 == null
      && person1.spouses == [] && person1.children == []
    ensures b !in old(t.tree) ==>
      fresh(person2) && person2.parent1 == null && person2.parent2 == null
      && person2.spouses == [] && person2.children == []
    ensures a == b && a !in old(t.tree) ==> person1 != person2
    ensures person1.spouses == old(t.SpousesOf(a)) && person2.spouses == old(t.SpousesOf(b))
    ensures person1.children == old(t.ChildrenOf(a)) && person2.children == old(t.ChildrenOf(b))
    ensures forall p :: p in old(t.Repr) ==> p.children == old(p.children) && p.spouses == old(p.spouses)
  {
    var found1 := t.GetPerson(a);
    var found2 := t.GetPerson(b);
    ghost var tree0 := t.tree;
    person1 := Obtain(t, a, found1);
    assert forall k :: k in tree0 ==> k in t.tree && t.tree[k] == tree0[k];
    person2 := Obtain(t, b, found2);
  }

  /** The two `add_spouse` calls of `E a b`: each person's name is appended
      to the other's spouse list.  `person1` may be a person the dictionary
      no longer holds (the first of two created for `E a a`). */
  method Wed(t: FamilyTree, person1: Person, person2: Person)
    requires t.Valid() && person1 in t.Repr && person2.name in t.tree && person2 == t.tree[person2.name]
    requires person1.name in t.tree
    requires person1.name != person2.name ==> person1 == t.tree[person1.name]
    modifies person1`spouses, person2`spouses
    ensures t.Valid()
    ensures person1 != person2 ==>
      person1.spouses == Sort(old(person1.spouses) + [person2.name])
      && person2.spouses == Sort(old(person2.spouses) + [person1.name])
    ensures person1 == person2 ==>
      person1.spouses == Sort(Sort(old(person1.spouses) + [person1.name]) + [person1.name])
    ensures t.tree == old(t.tree) && t.Repr == old(t.Repr)
    ensures forall p :: p in t.Repr ==> p.children == old(p.children)
  {
    SpousesListedMap(t.tree);
    ghost var before := SpouseMap(t.tree);
    person1.AddSpouse(person2);
    person2.AddSpouse(person1);
    SpousesMarried(before, SpouseMap(t.tree), person1.name, person2.name);
    SpousesListedMap(t.tree);
  }

  /** `E a b`: both names become known persons (`person1` and `person2`),
      each is appended to the other's spouse list (sorted again), and nothing
      else changes. */
  method Marry(t: FamilyTree, a: string, b: string) returns (person1: Person, person2: Person)
    requires t.Valid()
    modifies t, t.Repr
    ensures t.Valid()
    ensures fresh(t.Repr - old(t.Repr))
    ensures forall k :: k in t.tree <==> k in old(t.tree) || k == a || k == b
    ensures forall k :: k in old(t.tree) ==> k in t.tree && t.tree[k] == old(t.tree[k])
    ensures person1.name == a && person2 == t.tree[b]
    ensures a != b || a in old(t.tree) ==> person1 == t.tree[a]
    ensures a !in old(t.tree) ==>
      fresh(person1) && person1.parent1 == null && person1.parent2 == null && person1.children == []
    ensures b !in old(t.tree) ==>
      fresh(person2) && person2.parent1 == null && person2.parent2 == null && person2.children == []
    ensures person1 != person2 ==>
      person1.spouses == Sort(old(t.SpousesOf(a)) + [b]) && person2.spouses == Sort(old(t.SpousesOf(b)) + [a])
    ensures person1 == person2 ==> person1.spouses == Sort(Sort(old(t.SpousesOf(a)) + [a]) + [a])
    ensures forall p :: p in old(t.Repr) && p != person1 && p != person2 ==> p.spouses == old(p.spouses)
    ensures forall p :: p in old(t.Repr) ==> p.children == old(p.children)
  {
    person1, person2 := Vivify(t, a, b);
    Wed(t, person1, person2);
  }

  /** The two `add_child` calls of `E a b c`: the child's name is appended
      to both parents' lists (twice to one person who is both parents); lists
      only grow. */
  method ListChild(ghost repr: set<Person>, person1: Person, person2: Person, child: Person)
    modifies person1`children, person2`children
    ensures ListsChild(person1, child.name) && ListsChild(person2, child.name)
    ensures forall q, x :: q in repr && old(ListsChild(q, x)) ==> ListsChild(q, x)
    ensures person1 != person2 ==>
      person1.children == Sort(old(person1.children) + [child.name])
      && person2.children == Sort(old(person2.children) + [child.name])
    ensures person1 == person2 ==>
      person1.children == Sort(Sort(old(person1.children) + [child.name]) + [child.name])
  {
    person1.AddChild(child);
    person2.AddChild(child);
  }

  /** The creation step of `E a b c` once the name `c` is known to be free:
      `Person(c, person1, person2)` followed by `add_person`.  The parents'
      children lists are not touched yet. */
  method Born(t: FamilyTree, person1: Person, person2: Person, c: string) returns (child: Person)
    requires t.Valid() && person1 in t.Repr && person2 in t.Repr && c !in t.tree
    modifies t
    ensures Keyed(t.tree, t.Repr) && Linked(t.tree, t.Repr) && SpousesListed(t.tree)
    ensures t.tree == old(t.tree)[c := child] && t.Repr == old(t.Repr) + {child}
    ensures fresh(child) && child.name == c && child.parent1 == person1 && child.parent2 == person2
    ensures child.spouses == [] && child.children == []
  {
    ghost var tree0, repr0 := t.tree, t.Repr;
    LinkedRanked(tree0, repr0, person1);
    LinkedRanked(tree0, repr0, person2);
    child := new Person(c, person1, person2);
    KeyedAdd(tree0, repr0, child);
    LinkedAddChild(tree0, repr0, child);
    SpousesAddUnmarried(tree0, child);
    t.AddPerson(child);
  }

  /** The second half of `E a b c`: unless the name `c` is taken, create
      the child of `person1` and `person2`, store it, and append its name to
      both parents' children lists.  `child` is null when the name was taken
      (the program prints "already exists" and changes nothing). */
  method Bear(t: FamilyTree, person1: Person, person2: Person, c: string) returns (child: Person?)
    requires t.Valid() && person1 in t.Repr && person2 in t.Repr
    modifies t, person1`children, person2`children
    ensures t.Valid()
    ensures forall p :: p in t.Repr <==> p in old(t.Repr) || (child != null && p == child)
    ensures child == null <==> c in old(t.tree)
    ensures forall k :: k in t.tree <==> k in old(t.tree) || (child != null && k == c)
    ensures forall k :: k in old(t.tree) ==> t.tree[k] == old(t.tree[k])
    ensures child == null ==>
      person1.children == old(person1.children) && person2.children == old(person2.children)
    ensures child != null ==>
      fresh(child) && child.name == c && child.parent1 == person1 && child.parent2 == person2
      && child.spouses == [] && child.children == [] && t.tree[c] == child
    ensures child != null && person1 != person2 ==>
      person1.children == Sort(old(person1.children) + [c]) && person2.children == Sort(old(person2.children) + [c])
    ensures child != null && person1 == person2 ==>
      person1.children == Sort(Sort(old(person1.children) + [c]) + [c])
    ensures forall p :: p in old(t.Repr) && p != person1 && p != person2 ==> p.children == old(p.children)
    ensures forall p :: p in old(t.Repr) ==> p.spouses == old(p.spouses)
  {
    if t.GetPerson(c) != null {
      return null;
    }
    ghost var tree0, repr0 := t.tree, t.Repr;
    child := Born(t, person1, person2, c);
    ListChild(repr0, person1, person2, child);
    ChildrenGrow(repr0);
    ChildrenBorn(tree0, repr0, child);
  }

  /** `E a b c`: both parents become known persons (`person1` and `person2`);
      then the child is created only when the name `c` is still free, linked
      to both parents and appended to both parents' children lists.  `child`
      is null when the program printed "already exists". */
  method AddChild(t: FamilyTree, a: string, b: string, c: string) returns (person1: Person, person2: Person, child: Person?)
    requires t.Valid()
    modifies t, t.Repr
    ensures t.Valid()
    ensures forall k :: k in t.tree <==> k in old(t.tree) || k == a || k == b || (child != null && k == c)
    ensures forall p :: p in t.Repr <==> p in old(t.Repr) || p == person1 || p == person2 || (child != null && p == child)
    ensures fresh(t.Repr - old(t.Repr))
    ensures forall k :: k in old(t.tree) ==> k in t.tree && t.tree[k] == old(t.tree[k])
    ensures person1.name == a && person2 == t.tree[b]
    ensures a != b || a in old(t.tree) ==> person1 == t.tree[a]
    ensures a !in old(t.tree) ==>
      fresh(person1) && person1.parent1 == null && person1.parent2 == null && person1.spouses == []
    ensures b !in old(t.tree) ==>
      fresh(person2) && person2.parent1 == null && person2.parent2 == null && person2.spouses == []
    ensures child == null <==> c in old(t.tree) || c == a || c == b
    ensures child == null ==>
      person1.children == old(t.ChildrenOf(a)) && person2.children == old(t.ChildrenOf(b))
    ensures child != null ==>
      fresh(child) && child == t.tree[c] && child.parent1 == person1 && child.parent2 == person2
      && child.spouses == [] && child.children == []
    ensures child != null && person1 != person2 ==>
      person1.children == Sort(old(t.ChildrenOf(a)) + [c]) && person2.children == Sort(old(t.ChildrenOf(b)) + [c])
    ensures child != null && person1 == person2 ==>
      person1.children == Sort(Sort(old(t.ChildrenOf(a)) + [c]) + [c])
    ensures forall p :: p in old(t.Repr) && p != person1 && p != person2 ==> p.children == old(p.children)
    ensures forall p :: p in old(t.Repr) ==> p.spouses == old(p.spouses)
  {
    person1, person2 := Vivify(t, a, b);
    child := Bear(t, person1, person2, c);
  }

  /** `E a b c` and then `E d e c` on the same tree: the second command
      creates `d` and `e` if missing but is always rejected, because `c` is
      stored by then; whatever the first command stored under `c` stays. */
  method ChildTwice(t: FamilyTree, a: string, b: string, c: string, d: string, e: string)
    returns (first: Person?, second: Person?)
    requires t.Valid()
    modifies t, t.Repr
    ensures t.Valid() && fresh(t.Repr - old(t.Repr))
    ensures second == null && c in t.tree
    ensures first != null ==>
      t.tree[c] == first && first.parent1 != null && first.parent1.name == a
      && first.parent2 != null && first.parent2.name == b
    ensures first == null ==> c in old(t.tree) || c == a || c == b
  {
    var person1, person2, person3, person4;
    person1, person2, first := AddChild(t, a, b, c);
    person3, person4, second := AddChild(t, d, e, c);
  }

  /** `E a a c` for a stored `a` and a new name `c`: the one person stored
      under `a` is both parents, `add_child` lists `c` under it twice, and
      `get_siblings` removes only one of them, so `c` is its own sibling. */
  method OwnSibling(t: FamilyTree, a: string, c: string) returns (child: Person?, siblings: seq<string>)
    requires t.Valid() && a in t.tree && c !in t.tree && c != a
    modifies t, t.Repr
    ensures t.Valid() && fresh(t.Repr - old(t.Repr))
    ensures child != null && c in t.tree && child == t.tree[c] && c in siblings
  {
    var person1, person2;
    person1, person2, child := AddChild(t, a, a, c);
    assert person1 == person2 && child.parent1 == person1 && child.parent2 == person1;
    assert multiset(person1.children)[c] >= 2;
    SharedParentOwnSibling(child);
    siblings := child.GetSiblings();
  }
}
