# Family-tree relationship engine, modelled in Dafny

The repository keeps a family tree in memory and answers questions about it:
who is whose child, spouse, sibling, ancestor or cousin, and who is
unrelated to whom. It contains two versions of the engine:

- **The class version.** `Person.py` has a `Person` class whose parent
  links are object references and whose spouse and children lists hold
  names. `FamilyTree.py` maps each name to a `Person`. In `main.py`, the
  `E` command branch writes to the tree: `E a b` records a marriage and
  `E a b c` records a child `c` of `a` and `b`.
- **The dictionary version.** `Carlock.py` does the same with plain
  dictionaries, one per person, and has its own `E` branch.

The Dafny project models both versions.

| file | module | models |
|---|---|---|
| `list_ops.dfy` | `ListOps` | The Python list operations the engine uses: string order, `list.sort()`, `list.remove`, the "append if absent" loop, the "any element also in the other list" loop and the plain appending loop. |
| `person.dfy` | `PersonModel` | `class Person`. Its `spouses` and `children` fields are updated in place. It has the ancestor and sibling computations (a function plus a looping method each) and the relation predicates. |
| `family_tree.dfy` | `FamilyTreeModel` | `class FamilyTree`: the name-to-person map, `add_person`, `get_person`, and the `get_cousins`/`get_unrelated` loops. It also states the tree invariant `Valid()`, made of four parts (see below), and lemmas about valid trees. |
| `commands.dfy` | `Commands` | The `E` branch of `main.py`, step by step, as methods over a `FamilyTree`. |
| `carlock.dfy` | `Carlock` | `Carlock.py`: a person record as a `Rec` value and the tree as `class Tree` over a `map<string, Rec>`. Each `E` command is also given as a function on maps (`AfterMarriage`, `AfterChild`). Lemmas prove the effect of each command and that each command keeps the invariant `WellFormed`. |

Invariants:

- **`FamilyTree.Valid()`**: every entry is stored under its own name. Every person has two parents or none, and each parent was created earlier; a ghost creation rank records this, so ancestry is well-founded. Every child is on both parents' children lists. Spouse links are recorded on both sides.
- **`Carlock.WellFormed`**: the same facts about a `map<string, Rec>`, except "two parents or none", which the dictionary version does not need. Every entry is keyed by its own name, parent links are acyclic, every child is on its parents' lists, and spouse links are symmetric. Acyclicity is stated as the existence of a ranking.

Both `E` commands of both versions keep their invariant (`Commands.Marry`, `Commands.AddChild`, `Carlock.MarriageKeeps`, `Carlock.ChildKeeps`). On a tree with the invariant, further lemmas prove:

- `get_siblings` cannot fail for a person with parents;
- nobody is their own ancestor or child;
- `is_spouse` is symmetric.

Each `E` command of the class version also states that every person it adds to the tree's footprint is new (`fresh(t.Repr - old(t.Repr))`), so commands can be issued one after another on the same tree (`Commands.ChildTwice`, `Commands.OwnSibling`).

**Where the code does something surprising, the model follows the code.**

- **Marriage is not idempotent.** A repeated `E a b` does not check whether the two are already married. Both versions append the name again, so the model shows the duplicate (`Carlock.RepeatedMarriage`, and the `Sort(old(...) + [..])` contracts).
- **Siblings of a parentless person.** The docstring of `get_siblings` (Person.py:79, Carlock.py:77) says it removes the person themselves from the list. For a parentless person nothing was gathered, so `list.remove` is called on an empty list, and that raises. The model makes "the person's name was gathered" a precondition of `Siblings`.
- **A person can be their own sibling.** The docstring of `is_sibling` (Carlock.py:143) says one cannot be their own sibling, and `get_siblings` promises to remove the person themselves (Person.py:79, Carlock.py:77). After the degenerate command `E a a c` with a new `c`, both versions list `c` twice under `a`, and `get_siblings` removes only the first `c`. So `c` is its own sibling. In the dictionary version this holds on every tree (`Carlock.SelfSibling`). In the class version it holds whenever `a` is already stored, for example after `E a b` (`Commands.OwnSibling`, `PersonModel.SharedParentOwnSibling`). The contracts of `Siblings` state the exact condition: the name remains when it was gathered at least twice.
- **Siblings also count as cousins.** The docstring of `is_cousin` (Person.py:150-151) asks for a common ancestor and no direct ancestry. Siblings share an ancestor, so `is_cousin` holds for them too unless one is the other's child or ancestor (`PersonModel.SiblingsAreCousins`).
- **`is_sibling` differs between versions.** In `Person.py` it is false when the second person lacks a parent, which makes it asymmetric for half-parented persons. `Carlock.py` has no such guard, and there it is symmetric.
- **`E a a` on an unknown name `a` (class version).** Both lookups happen before either creation. So two parentless persons named `a` are created. The second replaces the first in the dictionary, and the first survives only as the new child's `parent1` (`Commands.Vivify`). The dictionary version checks and creates one name at a time, so it creates `a` once.

## Model

| member | source | states |
|---|---|---|
| ListOps.Sort | Person.py:44 | `list.sort()`: the result is sorted, is a permutation of the input (multiset), and has the same length and members. By `SortedUnique` it is the only such list. |
| ListOps.SortedUnique | Person.py:73 | Two sorted lists with the same multiset of names are equal, so the sorted result is determined by the input's contents. |
| ListOps.SortOfSorted | Person.py:44 | Sorting a list that is already sorted returns it unchanged. |
| ListOps.AppendThenSort | Person.py:42-44 | Appending one name to a sorted list and sorting is the same as inserting the name in place. |
| ListOps.Insert | Person.py:44 | Inserting into a sorted list keeps it sorted, adds exactly one occurrence of the name and increases the length by one. |
| ListOps.RemoveFirst | Person.py:91 | `list.remove(x)` on a list that holds `x` drops exactly one occurrence of `x` (multiset minus one) and keeps every other name. |
| ListOps.AppendNew | Person.py:87-90 | The "append if not present" loop keeps the old list as a prefix. What it adds is exactly the new elements: none already present, none twice. Its members are the union. |
| ListOps.AnyIn | Person.py:167-171 | The early-return loop answers true exactly when some element of the first list is in the second. |
| ListOps.AppendEach | Person.py:69-72 | The loop `for x in xs: acc.append(x)` yields `acc + xs`. |
| ListOps.AppendMissing | Person.py:87-90 | The loop `for y in xs: if y not in acc: acc.append(y)` yields `AppendNew(acc, xs)`. |
| ListOps.StrLe | Person.py:44 | definition: Python's `<=` on strings, lexicographic by character code, with a proper prefix ordered first. |
| ListOps.NoDupPerm | FamilyTree.py:48 | Sorting a list without duplicates leaves it without duplicates. |
| PersonModel.Person.constructor | Person.py:9-22 | A new person has the given name and parent links, and empty spouse and children lists. Its rank exceeds that of each parent. |
| PersonModel.Person.AddSpouse | Person.py:42-44 | The spouse list becomes the sorted old list plus the spouse's name, so a repeated call adds a duplicate. The children list is unchanged. |
| PersonModel.Person.AddChild | Person.py:52-54 | The children list becomes the sorted old list plus the child's name. The spouse list is unchanged. |
| PersonModel.Person.Ancestors | Person.py:63-74 | The ancestor list is sorted. It is empty when either parent is missing. Otherwise it has at least two entries, among them both parent names. |
| PersonModel.Person.GetAncestors | Person.py:63-74 | The recursive method with its appending loops returns exactly `Ancestors()`. |
| PersonModel.AncestorsOfParents | Person.py:66-74 | With both parents set, the ancestors are, as a multiset, the two parent names plus each parent's ancestors, with duplicates kept. The length is 2 + \|anc(p1)\| + \|anc(p2)\|. |
| PersonModel.Person.Collected | Person.py:83-90 | The gathered list holds exactly the children of the set parents. |
| PersonModel.Person.Siblings | Person.py:83-93 | The sibling list is sorted. A name other than the person's is in it iff it is a child of a set parent. The person's own name is in it iff it was gathered twice. The person's name being gathered is a precondition (Python raises otherwise). |
| PersonModel.Person.GetSiblings | Person.py:83-93 | The gathering loops, removal and sort return exactly `Siblings()`, under the same precondition. |
| PersonModel.SharedParentOwnSibling | Person.py:83-93 | When one person is both parents and lists the child twice, the child is gathered twice and is among its own siblings. |
| PersonModel.Person.Equals | Person.py:193-200 | definition: `equals` compares names. |
| PersonModel.Person.IsChild | Person.py:95-104 | definition: `is_child` holds iff both parents are set and `person2` is named like one of them. |
| PersonModel.Person.IsSpouse | Person.py:106-114 | definition: `is_spouse` holds iff `person2`'s name is on this person's spouse list. |
| PersonModel.Person.IsSibling | Person.py:116-137 | definition: `is_sibling` with its guards: false for the same name or when `person2` lacks a parent, otherwise a shared parent name. |
| PersonModel.Person.IsAncestor | Person.py:139-146 | definition: `is_ancestor` holds iff this name is among `person2`'s ancestors. |
| PersonModel.Person.IsCousin | Person.py:148-171 | definition: `is_cousin` with its early returns: not the same name, no child link either way, no direct ancestry, and a shared ancestor. |
| PersonModel.Person.IsUnrelated | Person.py:173-191 | definition: `is_unrelated`: true for the same name, otherwise true iff no child, sibling, cousin or ancestor relation holds in the order tested. |
| PersonModel.AncestorStep | Person.py:146 | `is_ancestor(q, p)` holds iff `p` has both parents and `q` is named like one of them or is an ancestor of one of them. |
| PersonModel.ChildIsAncestor | Person.py:102-104 | When `is_child(p, q)` holds, `q` is an ancestor of `p`. |
| PersonModel.CousinSymmetric | Person.py:156-171 | `is_cousin` gives the same answer with its arguments swapped. |
| PersonModel.SiblingSymmetric | Person.py:124-137 | For persons with two parents or none, `is_sibling` gives the same answer with its arguments swapped. |
| PersonModel.SelfRelations | Person.py:180-181 | A person is unrelated to themself, and is neither their own sibling nor their own cousin. |
| PersonModel.UnrelatedIffNoRelation | Person.py:180-191 | For persons with different names, `is_unrelated` holds iff none of these holds: child (either way), sibling, cousin, ancestor (either way). |
| PersonModel.UnrelatedSymmetric | Person.py:180-191 | For persons with two parents or none, `is_unrelated` gives the same answer with its arguments swapped. |
| PersonModel.SiblingsAreCousins | Person.py:156-171 | Siblings that are not each other's child or ancestor are also cousins. |
| FamilyTreeModel.FamilyTree.constructor | FamilyTree.py:13 | A new tree is empty and satisfies the invariant. |
| FamilyTreeModel.FamilyTree.AddPerson | FamilyTree.py:22 | `add_person` maps the person's name to the person, replacing any earlier entry. All other keys are unchanged. |
| FamilyTreeModel.FamilyTree.GetPerson | FamilyTree.py:32-35 | `get_person` returns None iff the name is not a key, and otherwise the stored person. It reads only, so it never inserts. |
| FamilyTreeModel.FamilyTree.GetCousins | FamilyTree.py:44-49 | Returns exactly the keys whose person is a cousin, sorted and without duplicates, and never the person's own name. It modifies nothing. |
| FamilyTreeModel.FamilyTree.GetUnrelated | FamilyTree.py:58-63 | Returns exactly the keys whose person is unrelated, sorted and without duplicates, including the person's own name when stored. It modifies nothing. |
| FamilyTreeModel.KeyedAdd | FamilyTree.py:22 | Storing a person under its own name keeps every entry stored under its own name. |
| FamilyTreeModel.LinkedRanked | main.py:51-55 | Every person in a linked tree is well ranked: every parent was created before its child, transitively. |
| FamilyTreeModel.AllRanked | main.py:51-55 | Every person the tree knows is well ranked. |
| FamilyTreeModel.LinkedAddParentless | main.py:27-32 | Storing a new parentless person keeps the parent links valid. |
| FamilyTreeModel.LinkedAddChild | main.py:54-55 | Storing a child of two known persons under a new name keeps the parent links valid. |
| FamilyTreeModel.ChildrenAddParentless | main.py:27-32 | A new parentless person keeps every child on its parents' lists. |
| FamilyTreeModel.ChildrenBorn | main.py:54-57 | A new child that both parents already list keeps every child on its parents' lists. |
| FamilyTreeModel.SpousesAddUnmarried | main.py:27-32 | Storing an unmarried person keeps spouse links symmetric. |
| FamilyTreeModel.SpousesMarried | main.py:35-36 | Adding each of two names to the other's spouse list, and changing no other list, keeps the spouse lists symmetric. |
| FamilyTreeModel.SpousesListedMap | main.py:35-36 | Spouse symmetry over the person objects is the same as symmetry of the name-to-spouse-list map. |
| FamilyTreeModel.StoredRanked | FamilyTree.py:44-49 | In a valid tree every stored person is well ranked, so the ancestor recursion behind `get_cousins`/`get_unrelated` terminates. |
| FamilyTreeModel.AncestorRanks | Person.py:63-74 | Every ancestor name of a known person is stored, under a person created before them. |
| FamilyTreeModel.AncestryAcyclic | main.py:51-55 | In a valid tree nobody is their own ancestor, and ancestry never holds in both directions. |
| FamilyTreeModel.NotOwnChild | Person.py:102-104 | In a valid tree nobody is their own child. |
| FamilyTreeModel.SiblingsDefined | Person.py:91 | In a valid tree a person with parents is among their parents' children, so `get_siblings` does not raise. |
| FamilyTreeModel.SpouseSymmetric | main.py:35-36 | In a valid tree `is_spouse` between stored persons gives the same answer with its arguments swapped. |
| FamilyTreeModel.RelationsSymmetric | Person.py:124-137 | In a valid tree `is_sibling` and `is_unrelated` give the same answer with their arguments swapped. |
| Commands.CreateParentless | main.py:28-29 | `Person(name, None, None)` plus `add_person`: stores a fresh parentless, unmarried person under the name and keeps the invariant. |
| Commands.Obtain | main.py:27-29 | Reuses the person a lookup found, unchanged. If the lookup found nothing, stores a fresh parentless person, the only new object in the footprint. No other entry and no list changes. |
| Commands.Vivify | main.py:23-32 | After the opening of either command, both names are keys. Existing entries are untouched and reused. Absent names get fresh parentless persons with empty lists. For `E a a` on an unknown `a`, two distinct persons are created. Objects new to the footprint are fresh. |
| Commands.Wed | main.py:35-36 | Each person's name is appended to the other's spouse list, and the list is re-sorted. Spouse links stay symmetric. No entry and no children list changes. |
| Commands.Marry | main.py:22-36 | `E a b` keeps the invariant. Both names become keys, and existing persons are reused. `b` is added to `a`'s spouses and `a` to `b`'s, both sorted. No other spouse list and no children list changes. Objects new to the footprint are fresh, so a further command can follow. |
| Commands.ListChild | main.py:56-57 | The child's name is appended to both parents' lists (twice when they are one person), and the lists are re-sorted. Lists only grow. |
| Commands.Born | main.py:54-55 | Stores a fresh child linked to both parents under a free name, with empty lists. Keys, parent links and spouse symmetry are kept. |
| Commands.Bear | main.py:51-57 | The child is created iff its name was free. On rejection no list or entry changes. Otherwise the child is stored linked to both parents, and its name is added to both children lists. The footprint gains exactly the new child. The invariant is kept. |
| Commands.AddChild | main.py:38-57 | `E a b c` keeps the invariant. The parents are created if missing. The child is rejected iff `c` was a key or equals `a` or `b`. On rejection the children lists are unchanged. Otherwise the child is stored and listed by both parents. The footprint gains exactly the persons created, so a further command can follow. |
| Commands.ChildTwice | main.py:51-57 | `E a b c` followed by `E d e c`: the second command is always rejected, because `c` is stored by then, and the person stored under `c` by an accepted first command stays, with parents named `a` and `b`. |
| Commands.OwnSibling | main.py:51-57 | `E a a c` with `a` stored and `c` new creates `c`, and `get_siblings` on `c` then lists `c` itself. |
| Carlock.WithSpouse | Carlock.py:42-43 | `add_spouse` adds exactly one occurrence of the name to the sorted spouse list, with members old plus the name. No other field or record changes. |
| Carlock.WithChild | Carlock.py:54-55 | `add_child` adds exactly one occurrence of the name to the sorted children list, with members old plus the name. No other field or record changes. |
| Carlock.Obtained | Carlock.py:266-270 | A missing name gets `create_person(name, None, None)`, a record with no parents and empty lists. A stored record is reused unchanged. |
| Carlock.Vivified | Carlock.py:266-275 | Both names end up stored. Existing records are unchanged. New ones are parentless with empty lists. |
| Carlock.MarriageFrame | Carlock.py:263-279 | `E a b` changes only the spouse lists of `a` and `b`. Every other record, and every other field of theirs, stays as it was. |
| Carlock.MarriageSpouses | Carlock.py:278-279 | `E a b` adds `b` once to `a`'s spouses and `a` once to `b`'s (`a` twice when `a == b`). Both lists stay sorted. |
| Carlock.RepeatedMarriage | Carlock.py:42-43 | Issuing `E a b` twice puts `b` on `a`'s list two more times: marriages are not deduplicated. |
| Carlock.ChildRejected | Carlock.py:296-297 | `E a b c` is rejected iff `c` is stored once the parents exist. Then only the parents' creation happened, and the record under `c` is the old one. |
| Carlock.BirthEffect | Carlock.py:299-302 | An accepted child is `create_person(c, a, b)` with empty lists. `c` is added once to each parent's sorted children list (twice for one parent). No other record changes. |
| Carlock.WithSpouseKeeps | Carlock.py:42-43 | `add_spouse` keeps names keyed, the ranking valid and children listed. |
| Carlock.MarriedSymmetric | Carlock.py:278-279 | Adding each of two names to the other's spouse list keeps spouse links symmetric. |
| Carlock.RankedKept | Carlock.py:42-43 | Updates that keep every name and parent link keep a ranking valid. |
| Carlock.ObtainedKeeps | Carlock.py:266-268 | Creating a missing person keeps the invariant. |
| Carlock.VivifiedKeeps | Carlock.py:266-275 | Creating both missing persons keeps the invariant. |
| Carlock.MarriageKeeps | Carlock.py:263-279 | `E a b` keeps the invariant, in particular that spouse links are symmetric. |
| Carlock.BornRanked | Carlock.py:299-300 | A child of two stored parents, stored under a new name, is ranked above both, so parent links stay acyclic. |
| Carlock.BirthListed | Carlock.py:299-302 | After the birth every person, the child included, is on both parents' children lists. |
| Carlock.BirthAcyclic | Carlock.py:299-302 | The birth keeps names keyed and parent links acyclic. |
| Carlock.BirthChildren | Carlock.py:299-302 | The birth keeps every person listed by their parents. |
| Carlock.BirthSpouses | Carlock.py:299-302 | The birth keeps spouse links symmetric. |
| Carlock.BirthKeeps | Carlock.py:298-302 | The accepting branch keeps the invariant. |
| Carlock.ChildKeeps | Carlock.py:281-302 | `E a b c` keeps the invariant, accepted or not. |
| Carlock.Ancestors | Carlock.py:103-114 | The ancestor list is sorted, and empty when either parent is missing. |
| Carlock.GetAncestors | Carlock.py:103-114 | The recursive method with its appending loops returns exactly `Ancestors`. |
| Carlock.AncestorsOfParents | Carlock.py:106-114 | With both parents set, the ancestors are, as a multiset, both parent names plus each parent's ancestors, with duplicates kept. The length is 2 + \|anc(p1)\| + \|anc(p2)\|. |
| Carlock.AncestorsOlder | Carlock.py:103-114 | Every ancestor is stored and ranked before the person. |
| Carlock.Collected | Carlock.py:82-89 | The gathered list holds exactly the children of the set parents. |
| Carlock.Siblings | Carlock.py:82-92 | The sibling list is sorted. Another name is in it iff it is a child of a set parent. The person's own name is in it iff it was gathered twice. The name being gathered is a precondition. |
| Carlock.GetSiblings | Carlock.py:82-92 | The gathering loops, removal and sort return exactly `Siblings`. |
| Carlock.SiblingsDefined | Carlock.py:90 | In a well-formed tree a person with a parent is on that parent's children list, so `list.remove` succeeds. |
| Carlock.SelfSibling | Carlock.py:90 | On any tree, after `E a a c` with a new `c` different from `a`, `c` is stored with its parents, was gathered twice and is among its own siblings. |
| Carlock.AncestorStep | Carlock.py:171 | `is_ancestor(a, b)` holds iff `b` has both parents and `a` is one of them or an ancestor of one of them. |
| Carlock.ChildIsAncestor | Carlock.py:124-127 | When `is_child(a, b)` holds, `b` is an ancestor of `a`. |
| Carlock.NotOwnChild | Carlock.py:124-127 | Nobody is their own child. |
| Carlock.AncestryAcyclic | Carlock.py:171 | Nobody is their own ancestor, and ancestry never holds in both directions. |
| Carlock.SiblingSymmetric | Carlock.py:149-160 | `is_sibling` gives the same answer with its arguments swapped. |
| Carlock.CousinSymmetric | Carlock.py:182-197 | `is_cousin` gives the same answer with its arguments swapped. |
| Carlock.UnrelatedSymmetric | Carlock.py:209-220 | `is_unrelated` gives the same answer with its arguments swapped. |
| Carlock.SelfRelations | Carlock.py:209-210 | A person is unrelated to themself, and is neither their own sibling nor their own cousin. |
| Carlock.UnrelatedIffNoRelation | Carlock.py:209-220 | For different persons, `is_unrelated` holds iff none of these holds: child (either way), sibling, cousin, ancestor (either way). |
| Carlock.IsChild | Carlock.py:117-127 | definition: `is_child` holds iff both parents are set and one of them is `b`. |
| Carlock.IsSpouse | Carlock.py:130-138 | definition: `is_spouse` holds iff `b` is on `a`'s spouse list. |
| Carlock.IsSibling | Carlock.py:141-160 | definition: `is_sibling`: false for the same person, otherwise a shared parent, with no guard on `b`'s parents. |
| Carlock.IsAncestor | Carlock.py:163-171 | definition: `is_ancestor` holds iff `a` is among `b`'s ancestors. |
| Carlock.IsCousin | Carlock.py:174-197 | definition: `is_cousin` with its early returns: not the same person, no child link either way, no direct ancestry, and a shared ancestor. |
| Carlock.IsUnrelated | Carlock.py:200-220 | definition: `is_unrelated`: true for the same person, otherwise true iff no child, sibling, cousin or ancestor relation holds in the order tested. |
| Carlock.SpouseSymmetric | Carlock.py:138 | In a well-formed tree `is_spouse` gives the same answer with its arguments swapped. |
| Carlock.GetCousins | Carlock.py:231-236 | Returns exactly the stored names that are cousins, sorted and without duplicates, and never the person's own name. |
| Carlock.GetUnrelated | Carlock.py:247-252 | Returns exactly the stored names that are unrelated, sorted and without duplicates, always including the person's own name. |
| Carlock.AfterMarriage | Carlock.py:262-279 | definition: the tree after `E a b`: both names made known, then each added to the other's spouse list. |
| Carlock.Birth | Carlock.py:298-302 | definition: the accepting branch of `E a b c`: store `create_person(c, a, b)`, then add `c` to `a`'s and `b`'s children lists. |
| Carlock.AfterChild | Carlock.py:281-302 | definition: the tree after `E a b c`: both parents made known, then `Birth` unless `c` is stored. |
| Carlock.Tree.constructor | Carlock.py:256 | The tree starts empty and well formed. |
| Carlock.Tree.AddSpouse | Carlock.py:42-43 | Updates the stored record in place to `WithSpouse`. |
| Carlock.Tree.AddChild | Carlock.py:54-55 | Updates the stored record in place to `WithChild`. |
| Carlock.Tree.Initialize | Carlock.py:266-270 | Stores `create_person(name, None, None)` when the name is missing. The tree becomes `Obtained`. |
| Carlock.Tree.Marry | Carlock.py:263-279 | `E a b` keeps the tree well formed. The tree becomes `AfterMarriage`. |
| Carlock.Tree.NewChild | Carlock.py:281-302 | `E a b c` keeps the tree well formed. The tree becomes `AfterChild`. `created` is false iff `c` was stored or names a parent. |

## Left out

- The command loop is not modelled. That covers reading standard input, splitting lines, the `W` and `X` query branches, printing names, `Yes`/`No` and error texts, and the `break` on a malformed command. It is I/O around the engine, whose operations are modelled directly.
- The `KeyError` that `Carlock.py`'s `X` branch raises for an unknown name is not modelled, because it belongs to the command loop.
- The setters `set_name`, `set_parent1` and `set_parent2` are not modelled. Nothing calls them, and they could break the name keys and the acyclicity the model relies on. In the model the name and parent links are constants.
- `get_name`, `get_parent1`, `get_parent2`, `get_spouses` and `get_children` (both versions) are field reads. The model reads the fields directly.
- `Carlock.CreatePerson` has no contract of its own: it only builds a record. What it produces is stated in `Obtained` and `BirthEffect`.
- Python's structural `==` between two dictionaries (`Carlock.py` lines 127, 149-157, 182 and 209) is modelled as equality of names. The program never replaces a stored dictionary, so a parent entry is always the record stored under that parent's name.
- Parent links in `Carlock.py` are the parents' dictionaries. The model stores the parents' names, for the same reason.
- Dictionary iteration order is not modelled. `get_cousins` and `get_unrelated` visit the keys in an arbitrary order, and sort the result anyway.
- FamilyTreeModel.FamilyTree.GetCousins and FamilyTreeModel.FamilyTree.GetUnrelated require that the stored persons are well ranked, because otherwise Python's ancestor recursion would not terminate. They also require that every entry is stored under its own name, which the ensures `person.name !in cousins` needs: it follows from `is_cousin` being false for an equal name. A valid tree meets both (`StoredRanked`).
- PersonModel.Person.Siblings and Carlock.Siblings require that the person's name was gathered. Python raises `ValueError` otherwise. For a person with parents in a tree kept valid, `SiblingsDefined` proves this.
- The spouse-symmetry lemmas (`FamilyTreeModel.SpouseSymmetric`, `Carlock.SpouseSymmetric`) hold only for trees built by the `E` commands, which keep the invariant. An arbitrary tree need not be symmetric.
