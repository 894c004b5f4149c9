/**
 * The category tree of brokers/models/category.py. The table is a sequence
 * of rows kept in the model's default ordering (`sort_order`, then `name`);
 * each row may name a parent by id. Parent links are not checked for cycles
 * by the source, so every operation that follows them asks for a well-formed
 * table, whose `Rooted` clause says every chain of parents ends at a root.
 */
module Categories {
  import opened Wrappers
  import opened Text

  datatype Category = Category(id: nat, name: string, slug: string, description: string,
                               parent: Option<nat>, isActive: bool, isFeatured: bool, sortOrder: nat)

  // ---------------------------------------------------------------------
  // The table and its constraints

  /** The row with the given primary key, if any. */
  function Find(cats: seq<Category>, id: nat): (r: Option<Category>)
    ensures r.Some? ==> r.value in cats && r.value.id == id
    ensures r.None? <==> forall c :: c in cats ==> c.id != id
  {
    if cats == [] then None else if cats[0].id == id then Some(cats[0]) else Find(cats[1..], id)
  }

  /** No two rows agree on `key`. */
  predicate UniqueBy<K(==)>(cats: seq<Category>, key: Category -> K) {
    forall i, j :: 0 <= i < j < |cats| ==> key(cats[i]) != key(cats[j])
  }

  function IdOf(c: Category): nat { c.id }
  function NameOf(c: Category): string { c.name }
  function SlugOf(c: Category): string { c.slug }

  /** The ordering of `Category.Meta`: by `sort_order`, then by `name`. */
  predicate CatLess(a: Category, b: Category) {
    a.sortOrder < b.sortOrder || (a.sortOrder == b.sortOrder && StrLess(a.name, b.name))
  }

  predicate Sorted(cats: seq<Category>) {
    forall i, j :: 0 <= i < j < |cats| ==> CatLess(cats[i], cats[j])
  }

  /** Following parent links from `id` reaches a root within `fuel` steps. */
  predicate Rooted(cats: seq<Category>, id: nat, fuel: nat)
    decreases fuel
  {
    match Find(cats, id)
    case None => false
    case Some(c) => c.parent.None? || (fuel > 0 && Rooted(cats, c.parent.value, fuel - 1))
  }

  /** Every parent exists and no chain of parents is a cycle. */
  ghost predicate Acyclic(cats: seq<Category>) {
    forall id :: Present(cats, id) ==> Rooted(cats, id, |cats|)
  }

  /** Unique ids and parent links that form a forest. */
  ghost predicate Forest(cats: seq<Category>) {
    UniqueBy(cats, IdOf) && Acyclic(cats)
  }

  /** The table's invariant: unique id, name and slug, default ordering, and a forest of parent links. */
  ghost predicate WellFormed(cats: seq<Category>) {
    Forest(cats) && UniqueBy(cats, NameOf) && UniqueBy(cats, SlugOf) && Sorted(cats)
  }

  predicate Present(cats: seq<Category>, id: nat) {
    Find(cats, id).Some?
  }

  lemma FindUnique(cats: seq<Category>, c: Category)
    requires UniqueBy(cats, IdOf) && c in cats
    ensures Find(cats, c.id) == Some(c)
  {
    var d := Find(cats, c.id).value;
    var i, j :| 0 <= i < |cats| && 0 <= j < |cats| && cats[i] == c && cats[j] == d;
    assert IdOf(cats[i]) == IdOf(cats[j]);
  }

  lemma UniqueCons<K>(h: Category, t: seq<Category>, key: Category -> K)
    ensures UniqueBy([h] + t, key) <==> (forall c :: c in t ==> key(c) != key(h)) && UniqueBy(t, key)
  {
    var s := [h] + t;
    if (forall c :: c in t ==> key(c) != key(h)) && UniqueBy(t, key) {
      forall i, j | 0 <= i < j < |s| ensures key(s[i]) != key(s[j]) {
        if i > 0 {
          assert s[i] == t[i - 1] && s[j] == t[j - 1];
        } else {
          assert s[j] == t[j - 1];
        }
      }
    }
    if UniqueBy(s, key) {
      forall c | c in t ensures key(c) != key(h) {
        var j :| 0 <= j < |t| && t[j] == c;
        assert s[0] == h && s[j + 1] == c;
        assert key(s[0]) != key(s[j + 1]);
      }
      forall i, j | 0 <= i < j < |t| ensures key(t[i]) != key(t[j]) {
        assert s[i + 1] == t[i] && s[j + 1] == t[j];
      }
    }
  }

  lemma SortedCons(h: Category, t: seq<Category>)
    ensures Sorted([h] + t) <==> (forall c :: c in t ==> CatLess(h, c)) && Sorted(t)
  {
    var s := [h] + t;
    if (forall c :: c in t ==> CatLess(h, c)) && Sorted(t) {
      forall i, j | 0 <= i < j < |s| ensures CatLess(s[i], s[j]) {
        if i > 0 {
          assert s[i] == t[i - 1] && s[j] == t[j - 1];
        } else {
          assert s[j] == t[j - 1];
        }
      }
    }
    if Sorted(s) {
      forall c | c in t ensures CatLess(h, c) {
        var j :| 0 <= j < |t| && t[j] == c;
        assert s[0] == h && s[j + 1] == c;
        assert CatLess(s[0], s[j + 1]);
      }
      forall i, j | 0 <= i < j < |t| ensures CatLess(t[i], t[j]) {
        assert s[i + 1] == t[i] && s[j + 1] == t[j];
      }
    }
  }

  lemma CatLessTransitive(a: Category, b: Category, c: Category)
    requires CatLess(a, b) && CatLess(b, c)
    ensures CatLess(a, c)
  {
    if a.sortOrder == b.sortOrder == c.sortOrder {
      StrLessTransitive(a.name, b.name, c.name);
    }
  }

  lemma CatLessTotal(a: Category, b: Category)
    requires a.name != b.name
    ensures CatLess(a, b) || CatLess(b, a)
  {
    StrLessTotal(a.name, b.name);
  }

  // ---------------------------------------------------------------------
  // Inserting a row at its place in the default ordering

  /** The table with `x` placed before the first row that follows it in the default ordering. */
  function Insert(cats: seq<Category>, x: Category): (r: seq<Category>)
    ensures |r| == |cats| + 1
    ensures forall c :: c in r <==> c in cats || c == x
    ensures multiset(r) == multiset(cats) + multiset{x}
  {
    if cats == [] || CatLess(x, cats[0]) then [x] + cats
    else
      assert cats == [cats[0]] + cats[1..];
      [cats[0]] + Insert(cats[1..], x)
  }

  /** Insertion keeps every uniqueness constraint that `x` does not break. */
  lemma {:induction false} InsertUnique<K>(cats: seq<Category>, x: Category, key: Category -> K)
    requires UniqueBy(cats, key)
    requires forall c :: c in cats ==> key(c) != key(x)
    ensures UniqueBy(Insert(cats, x), key)
  {
    if cats == [] || CatLess(x, cats[0]) {
      UniqueCons(x, cats, key);
    } else {
      UniqueCons(cats[0], cats[1..], key);
      InsertUnique(cats[1..], x, key);
      UniqueCons(cats[0], Insert(cats[1..], x), key);
    }
  }

  /** Insertion of a row with a fresh name keeps the table in its default ordering. */
  lemma {:induction false} InsertSorted(cats: seq<Category>, x: Category)
    requires Sorted(cats)
    requires forall c :: c in cats ==> c.name != x.name
    ensures Sorted(Insert(cats, x))
  {
    if cats == [] {
      SortedCons(x, cats);
    } else if CatLess(x, cats[0]) {
      SortedCons(cats[0], cats[1..]);
      forall c | c in cats ensures CatLess(x, c) {
        if c != cats[0] {
          CatLessTransitive(x, cats[0], c);
        }
      }
      SortedCons(x, cats);
    } else {
      CatLessTotal(x, cats[0]);
      SortedCons(cats[0], cats[1..]);
      InsertSorted(cats[1..], x);
      SortedCons(cats[0], Insert(cats[1..], x));
    }
  }

  /** After inserting a row, every row present before is still found under its id. */
  lemma InsertFind(cats: seq<Category>, x: Category, id: nat)
    requires UniqueBy(cats, IdOf) && forall c :: c in cats ==> c.id != x.id
    requires id != x.id
    ensures Find(Insert(cats, x), id) == Find(cats, id)
  {
    InsertUnique(cats, x, IdOf);
    var r := Insert(cats, x);
    if Find(cats, id).Some? {
      FindUnique(r, Find(cats, id).value);
    }
  }

  lemma {:induction false} InsertRooted(cats: seq<Category>, x: Category, id: nat, fuel: nat)
    requires UniqueBy(cats, IdOf) && forall c :: c in cats ==> c.id != x.id
    requires Rooted(cats, id, fuel)
    ensures Rooted(Insert(cats, x), id, fuel)
    decreases fuel
  {
    InsertFind(cats, x, id);
    var c := Find(cats, id).value;
    if c.parent.Some? {
      InsertRooted(cats, x, c.parent.value, fuel - 1);
    }
  }

  lemma {:induction false} RootedMonotone(cats: seq<Category>, id: nat, fuel: nat, more: nat)
    requires Rooted(cats, id, fuel) && fuel <= more
    ensures Rooted(cats, id, more)
    decreases fuel
  {
    var c := Find(cats, id).value;
    if c.parent.Some? {
      RootedMonotone(cats, c.parent.value, fuel - 1, more - 1);
    }
  }

  /** A new leaf (fresh id, name and slug; parent absent or present) keeps the table well formed. */
  lemma InsertWellFormed(cats: seq<Category>, x: Category)
    requires WellFormed(cats)
    requires forall c :: c in cats ==> c.id != x.id && c.name != x.name && c.slug != x.slug
    requires x.parent.Some? ==> Present(cats, x.parent.value)
    ensures WellFormed(Insert(cats, x))
  {
    var r := Insert(cats, x);
    InsertUnique(cats, x, IdOf);
    InsertUnique(cats, x, NameOf);
    InsertUnique(cats, x, SlugOf);
    InsertSorted(cats, x);
    forall id | Present(r, id) ensures Rooted(r, id, |r|) {
      var c := Find(r, id).value;
      if c == x {
        FindUnique(r, x);
        if x.parent.Some? {
          var p := Find(cats, x.parent.value).value;
          InsertRooted(cats, x, p.id, |cats|);
        }
      } else {
        InsertRooted(cats, x, c.id, |cats|);
        RootedMonotone(r, c.id, |cats|, |r|);
      }
    }
  }

  // ---------------------------------------------------------------------
  // Lineage: the ids from the root down to a category

  /** The parent chain of `id`, followed for at most `fuel` steps. */
  function LineageF(cats: seq<Category>, id: nat, fuel: nat): (l: seq<nat>)
    ensures 1 <= |l| <= fuel + 1 && l[|l| - 1] == id
    decreases fuel
  {
    match Find(cats, id)
    case None => [id]
    case Some(c) => if c.parent.None? || fuel == 0 then [id] else LineageF(cats, c.parent.value, fuel - 1) + [id]
  }

  lemma {:induction false} LineageFuel(cats: seq<Category>, id: nat, f: nat, g: nat)
    requires Rooted(cats, id, f) && Rooted(cats, id, g)
    ensures LineageF(cats, id, f) == LineageF(cats, id, g)
    decreases f
  {
    var c := Find(cats, id).value;
    if c.parent.Some? {
      LineageFuel(cats, c.parent.value, f - 1, g - 1);
    }
  }

  /** The ids of the category's ancestors, root first, ending with the category itself. */
  ghost function Lineage(cats: seq<Category>, id: nat): (l: seq<nat>)
    ensures 1 <= |l| <= |cats| + 1 && l[|l| - 1] == id
  {
    LineageF(cats, id, |cats|)
  }

  /** A root's lineage is itself; a child's lineage is its parent's, extended by the child. */
  lemma LineageStep(cats: seq<Category>, id: nat)
    requires Acyclic(cats) && Present(cats, id)
    ensures Find(cats, id).value.parent.None? ==> Lineage(cats, id) == [id]
    ensures Find(cats, id).value.parent.Some? ==>
      Present(cats, Find(cats, id).value.parent.value) &&
      Lineage(cats, id) == Lineage(cats, Find(cats, id).value.parent.value) + [id]
  {
    var c := Find(cats, id).value;
    if c.parent.Some? {
      var p := c.parent.value;
      RootedMonotone(cats, p, |cats| - 1, |cats|);
      LineageFuel(cats, p, |cats| - 1, |cats|);
    }
  }

  /** Every entry of a lineage is a category whose own lineage is the matching prefix. */
  lemma {:induction false} LineagePrefix(cats: seq<Category>, id: nat, j: nat)
    requires Acyclic(cats) && Present(cats, id)
    requires j < |Lineage(cats, id)|
    ensures Present(cats, Lineage(cats, id)[j])
    ensures Lineage(cats, Lineage(cats, id)[j]) == Lineage(cats, id)[..j + 1]
    decreases |Lineage(cats, id)|
  {
    var l := Lineage(cats, id);
    LineageStep(cats, id);
    if j == |l| - 1 {
      assert l[..j + 1] == l;
    } else {
      var p := Find(cats, id).value.parent.value;
      var lp := Lineage(cats, p);
      assert l == lp + [id];
      assert l[j] == lp[j];
      LineagePrefix(cats, p, j);
      assert l[..j + 1] == lp[..j + 1];
    }
  }

  // ---------------------------------------------------------------------
  // full_path and __str__

  function FullPathF(cats: seq<Category>, id: nat, fuel: nat): string
    requires Rooted(cats, id, fuel)
    decreases fuel
  {
    var c := Find(cats, id).value;
    if c.parent.None? then c.name else FullPathF(cats, c.parent.value, fuel - 1) + " > " + c.name
  }

  lemma {:induction false} FullPathFuel(cats: seq<Category>, id: nat, f: nat, g: nat)
    requires Rooted(cats, id, f) && Rooted(cats, id, g)
    ensures FullPathF(cats, id, f) == FullPathF(cats, id, g)
    decreases f
  {
    var c := Find(cats, id).value;
    if c.parent.Some? {
      FullPathFuel(cats, c.parent.value, f - 1, g - 1);
    }
  }

  /** `Category.full_path`: the parent's full path, " > ", then the name; a root's is its name. */
  function FullPath(cats: seq<Category>, id: nat): string
    requires Acyclic(cats) && Present(cats, id)
  {
    FullPathF(cats, id, |cats|)
  }

  /** The recursion of `full_path`, one level at a time. */
  lemma FullPathStep(cats: seq<Category>, id: nat)
    requires Acyclic(cats) && Present(cats, id)
    ensures Find(cats, id).value.parent.None? ==> FullPath(cats, id) == Find(cats, id).value.name
    ensures Find(cats, id).value.parent.Some? ==>
      Present(cats, Find(cats, id).value.parent.value) &&
      FullPath(cats, id) == FullPath(cats, Find(cats, id).value.parent.value) + " > " + Find(cats, id).value.name
  {
    var c := Find(cats, id).value;
    if c.parent.Some? {
      var p := c.parent.value;
      RootedMonotone(cats, p, |cats| - 1, |cats|);
      FullPathFuel(cats, p, |cats| - 1, |cats|);
    }
  }

  /** A full path ends with the category's own name. */
  lemma FullPathEndsWithName(cats: seq<Category>, id: nat)
    requires Acyclic(cats) && Present(cats, id)
    ensures var path, name := FullPath(cats, id), Find(cats, id).value.name;
      |name| <= |path| && path[|path| - |name|..] == name
  {
    FullPathStep(cats, id);
  }

  /**
   * With no '>' in any name, a full path holds one '>' per level below the
   * root: as many separators as the category's depth.
   */
  lemma {:induction false} FullPathSeparators(cats: seq<Category>, id: nat)
    requires Acyclic(cats) && Present(cats, id)
    requires forall c :: c in cats ==> '>' !in c.name
    ensures CountChar(FullPath(cats, id), '>') == |Lineage(cats, id)| - 1
    decreases |Lineage(cats, id)|
  {
    var c := Find(cats, id).value;
    FullPathStep(cats, id);
    LineageStep(cats, id);
    CountCharAbsent(c.name, '>');
    if c.parent.Some? {
      var p := c.parent.value;
      FullPathSeparators(cats, p);
      var pp := FullPath(cats, p);
      CountCharAppend(pp + " > ", c.name, '>');
      CountCharAppend(pp, " > ", '>');
      assert CountChar(" > ", '>') == 1;
    }
  }

  /** `Category.__str__`: the immediate parent's name, " > ", then the name; a root shows its name. */
  function Str(cats: seq<Category>, id: nat): string
    requires Acyclic(cats) && Present(cats, id)
  {
    var c := Find(cats, id).value;
    if c.parent.None? then c.name
    else
      LineageStep(cats, id);
      Find(cats, c.parent.value).value.name + " > " + c.name
  }

  /** `__str__` and `full_path` agree exactly for roots and their direct children. */
  lemma StrIsFullPathIffShallow(cats: seq<Category>, id: nat)
    requires Acyclic(cats) && Present(cats, id)
    ensures Str(cats, id) == FullPath(cats, id) <==> |Lineage(cats, id)| <= 2
  {
    var c := Find(cats, id).value;
    FullPathStep(cats, id);
    LineageStep(cats, id);
    if c.parent.Some? {
      var p := c.parent.value;
      FullPathStep(cats, p);
      LineageStep(cats, p);
      var pc := Find(cats, p).value;
      if pc.parent.Some? {
        var gp := FullPath(cats, pc.parent.value);
        assert |FullPath(cats, p)| > |pc.name|;
        assert |FullPath(cats, id)| > |Str(cats, id)|;
      }
    }
  }

  // ---------------------------------------------------------------------
  // get_all_children

  /** The ids of the direct children, in the table's (default) ordering: `self.children.all()`. */
  function ChildIds(cats: seq<Category>, id: nat): seq<nat> {
    if cats == [] then []
    else if cats[0].parent == Some(id) then [cats[0].id] + ChildIds(cats[1..], id)
    else ChildIds(cats[1..], id)
  }

  /** The direct children are exactly the ids of the rows whose parent is `id`. */
  lemma {:induction false} ChildIdsMembers(cats: seq<Category>, id: nat)
    ensures forall x :: x in ChildIds(cats, id) <==> exists c :: c in cats && c.id == x && c.parent == Some(id)
  {
    if cats != [] {
      ChildIdsMembers(cats[1..], id);
      assert cats == [cats[0]] + cats[1..];
    }
  }

  predicate Distinct(s: seq<nat>) {
    forall i, j :: 0 <= i < j < |s| ==> s[i] != s[j]
  }

  lemma {:induction false} ChildIdsDistinct(cats: seq<Category>, id: nat)
    requires UniqueBy(cats, IdOf)
    ensures Distinct(ChildIds(cats, id))
  {
    if cats != [] {
      UniqueCons(cats[0], cats[1..], IdOf);
      assert [cats[0]] + cats[1..] == cats;
      ChildIdsDistinct(cats[1..], id);
      if cats[0].parent == Some(id) {
        ChildIdsMembers(cats[1..], id);
        DistinctAppend([cats[0].id], ChildIds(cats[1..], id));
      }
    }
  }

  lemma DistinctAppend(a: seq<nat>, b: seq<nat>)
    requires Distinct(a) && Distinct(b)
    requires forall x :: x in a ==> x !in b
    ensures Distinct(a + b)
  {
    var s := a + b;
    forall i, j | 0 <= i < j < |s| ensures s[i] != s[j] {
      if j < |a| {
        assert s[i] == a[i] && s[j] == a[j];
      } else if i >= |a| {
        assert s[i] == b[i - |a|] && s[j] == b[j - |a|];
      } else {
        assert s[i] == a[i] && s[j] == b[j - |a|];
        assert a[i] in a && b[j - |a|] in b;
      }
    }
  }

  /** The children of a present category are present, one level deeper. */
  lemma ChildLineage(cats: seq<Category>, id: nat, x: nat)
    requires UniqueBy(cats, IdOf) && Acyclic(cats) && Present(cats, id)
    requires x in ChildIds(cats, id)
    ensures Present(cats, x) && Lineage(cats, x) == Lineage(cats, id) + [x]
  {
    ChildIdsMembers(cats, id);
    var c :| c in cats && c.id == x && c.parent == Some(id);
    FindUnique(cats, c);
    LineageStep(cats, x);
  }

  /**
   * What `get_all_children` returns when at most `depth` levels are explored:
   * the direct children, then each child's own list in the same order.
   */
  ghost function DescendantsWithin(cats: seq<Category>, id: nat, depth: nat): seq<nat>
    decreases depth, 0
  {
    if depth == 0 then []
    else ChildIds(cats, id) + DescendantsOfEach(cats, ChildIds(cats, id), depth - 1)
  }

  /** The lists of the categories `xs`, concatenated in the order of `xs`. */
  ghost function DescendantsOfEach(cats: seq<Category>, xs: seq<nat>, depth: nat): seq<nat>
    decreases depth, 1, |xs|
  {
    if xs == [] then []
    else DescendantsOfEach(cats, xs[..|xs| - 1], depth) + DescendantsWithin(cats, xs[|xs| - 1], depth)
  }

  /**
   * What `get_all_children` returns on a forest. A category below `id` is at
   * most `|cats| + 1 - |Lineage(cats, id)|` levels further down, so one more
   * level than that is always enough.
   */
  ghost function Descendants(cats: seq<Category>, id: nat): seq<nat> {
    DescendantsWithin(cats, id, |cats| + 2 - |Lineage(cats, id)|)
  }

  lemma PrefixAt(a: seq<nat>, b: seq<nat>, i: nat)
    requires a <= b && i < |a|
    ensures b[i] == a[i]
  {
    assert b[..|a|] == a;
    assert b[..|a|][i] == b[i];
  }

  /** A category whose lineage extends `a`'s by itself alone is a direct child of `a`. */
  lemma ChildFromLineage(cats: seq<Category>, a: nat, ch: nat)
    requires Forest(cats) && Present(cats, a) && Present(cats, ch)
    requires Lineage(cats, ch) == Lineage(cats, a) + [ch]
    ensures ch in ChildIds(cats, a)
  {
    LineageStep(cats, ch);
    ChildIdsMembers(cats, a);
    var c := Find(cats, ch).value;
    var p := c.parent.value;
    assert Lineage(cats, p) + [ch] == Lineage(cats, a) + [ch];
    assert Lineage(cats, p) == (Lineage(cats, p) + [ch])[..|Lineage(cats, p)|];
    assert p == Lineage(cats, p)[|Lineage(cats, p)| - 1];
  }

  /** A category strictly below `a` passes through one of `a`'s direct children. */
  lemma ChildOnTheWay(cats: seq<Category>, a: nat, y: nat)
    requires Forest(cats) && Present(cats, a) && Present(cats, y)
    requires Lineage(cats, a) < Lineage(cats, y)
    ensures var ch := Lineage(cats, y)[|Lineage(cats, a)|];
      ch in ChildIds(cats, a) && Present(cats, ch) && Lineage(cats, ch) == Lineage(cats, y)[..|Lineage(cats, a)| + 1]
  {
    var la, ly := Lineage(cats, a), Lineage(cats, y);
    var k := |la|;
    LineagePrefix(cats, y, k);
    var ch := ly[k];
    assert ly[..k + 1] == ly[..k] + [ch];
    ChildFromLineage(cats, a, ch);
  }

  /** The direct children of `a` are present and all at the depth just below `a`. */
  lemma ChildrenOneDeeper(cats: seq<Category>, a: nat)
    requires Forest(cats) && Present(cats, a)
    ensures forall x :: x in ChildIds(cats, a) ==> Present(cats, x) && |Lineage(cats, x)| == |Lineage(cats, a)| + 1
  {
    forall x | x in ChildIds(cats, a) ensures Present(cats, x) && |Lineage(cats, x)| == |Lineage(cats, a)| + 1 {
      ChildLineage(cats, a, x);
    }
  }

  /** Every id listed below `a` is a category strictly below `a`. */
  lemma {:induction false} WithinBelow(cats: seq<Category>, a: nat, depth: nat)
    requires Forest(cats) && Present(cats, a)
    ensures forall z :: z in DescendantsWithin(cats, a, depth) ==> Present(cats, z) && Lineage(cats, a) < Lineage(cats, z)
    decreases depth, 0, 0
  {
    if depth > 0 {
      var kids := ChildIds(cats, a);
      var n := |Lineage(cats, a)| + 1;
      ChildrenOneDeeper(cats, a);
      EachBelow(cats, kids, depth - 1, n);
      forall z | z in DescendantsWithin(cats, a, depth)
        ensures Present(cats, z) && Lineage(cats, a) < Lineage(cats, z)
      {
        if z in kids {
          ChildLineage(cats, a, z);
          assert Lineage(cats, z)[..n - 1] == Lineage(cats, a);
        } else {
          var x := Lineage(cats, z)[n - 1];
          ChildLineage(cats, a, x);
          LineagePrefix(cats, z, n - 1);
          assert Lineage(cats, z)[..n][..n - 1] == Lineage(cats, z)[..n - 1];
        }
      }
    }
  }

  /** Every id listed below `x`, a category at depth `n`, passes through `x` at that depth. */
  lemma WithinUnder(cats: seq<Category>, x: nat, depth: nat, n: nat)
    requires Forest(cats) && Present(cats, x) && |Lineage(cats, x)| == n
    ensures forall z :: z in DescendantsWithin(cats, x, depth) ==>
      Present(cats, z) && n < |Lineage(cats, z)| && Lineage(cats, z)[n - 1] == x
    decreases depth, 0, 1
  {
    WithinBelow(cats, x, depth);
    forall z | z in DescendantsWithin(cats, x, depth)
      ensures Present(cats, z) && n < |Lineage(cats, z)| && Lineage(cats, z)[n - 1] == x
    {
      PrefixAt(Lineage(cats, x), Lineage(cats, z), n - 1);
    }
  }

  lemma InitIn(xs: seq<nat>)
    requires xs != []
    ensures forall x :: x in xs[..|xs| - 1] ==> x in xs
  {
  }

  /** Every id in the lists of `xs`, categories at depth `n`, passes through one of them at that depth. */
  lemma {:induction false} EachBelow(cats: seq<Category>, xs: seq<nat>, depth: nat, n: nat)
    requires Forest(cats) && 0 < n
    requires forall x :: x in xs ==> Present(cats, x) && |Lineage(cats, x)| == n
    ensures forall z :: z in DescendantsOfEach(cats, xs, depth) ==>
      Present(cats, z) && n < |Lineage(cats, z)| && Lineage(cats, z)[n - 1] in xs
    decreases depth, 1, |xs|
  {
    if xs != [] {
      var init, last := xs[..|xs| - 1], xs[|xs| - 1];
      InitIn(xs);
      EachBelow(cats, init, depth, n);
      WithinUnder(cats, last, depth, n);
    }
  }

  /** The list of `x` is part of the lists of any `xs` containing `x`. */
  lemma {:induction false} EachIncludes(cats: seq<Category>, xs: seq<nat>, depth: nat, x: nat)
    requires x in xs
    ensures forall y :: y in DescendantsWithin(cats, x, depth) ==> y in DescendantsOfEach(cats, xs, depth)
    decreases |xs|
  {
    var init, last := xs[..|xs| - 1], xs[|xs| - 1];
    assert xs == init + [last];
    if x != last {
      assert x in init;
      EachIncludes(cats, init, depth, x);
    }
  }

  /** Every category strictly below `a`, at most `depth` levels down, is listed. */
  lemma {:induction false} WithinComplete(cats: seq<Category>, a: nat, y: nat, depth: nat)
    requires Forest(cats) && Present(cats, a) && Present(cats, y)
    requires Lineage(cats, a) < Lineage(cats, y) && |Lineage(cats, y)| <= |Lineage(cats, a)| + depth
    ensures y in DescendantsWithin(cats, a, depth)
    decreases depth
  {
    var ly, k := Lineage(cats, y), |Lineage(cats, a)|;
    ChildOnTheWay(cats, a, y);
    var ch := ly[k];
    if y != ch {
      assert ly[|ly| - 1] == y;
      assert k + 1 < |ly|;
      assert Lineage(cats, ch) == ly[..k + 1];
      WithinComplete(cats, ch, y, depth - 1);
      WithinThroughChild(cats, a, ch, y, depth);
    } else {
      WithinUnfold(cats, a, depth);
    }
  }

  /** What is listed below a child, one level less deep, is listed below its parent. */
  lemma WithinThroughChild(cats: seq<Category>, a: nat, ch: nat, y: nat, depth: nat)
    requires 0 < depth && ch in ChildIds(cats, a) && y in DescendantsWithin(cats, ch, depth - 1)
    ensures y in DescendantsWithin(cats, a, depth)
  {
    WithinUnfold(cats, a, depth);
    EachIncludes(cats, ChildIds(cats, a), depth - 1, ch);
  }

  lemma WithinUnfold(cats: seq<Category>, a: nat, depth: nat)
    requires 0 < depth
    ensures DescendantsWithin(cats, a, depth) ==
      ChildIds(cats, a) + DescendantsOfEach(cats, ChildIds(cats, a), depth - 1)
  {
  }

  /** `Descendants(a)` holds exactly the categories strictly below `a`. */
  lemma DescendantsExactlyBelow(cats: seq<Category>, a: nat)
    requires Forest(cats) && Present(cats, a)
    ensures forall y :: y in Descendants(cats, a) <==> Present(cats, y) && Lineage(cats, a) < Lineage(cats, y)
  {
    WithinBelow(cats, a, |cats| + 2 - |Lineage(cats, a)|);
    forall y | Present(cats, y) && Lineage(cats, a) < Lineage(cats, y) ensures y in Descendants(cats, a) {
      WithinComplete(cats, a, y, |cats| + 2 - |Lineage(cats, a)|);
    }
  }

  lemma DistinctLast(s: seq<nat>, k: nat)
    requires Distinct(s) && 0 < k <= |s|
    ensures s[k - 1] !in s[..k - 1] && Distinct(s[..k - 1])
  {
    var init := s[..k - 1];
    forall j | 0 <= j < |init| ensures init[j] == s[j] && init[j] != s[k - 1] {
      assert init[j] == s[j];
    }
  }

  /** The lists below `a` name no category twice. */
  lemma {:induction false} WithinDistinct(cats: seq<Category>, a: nat, depth: nat)
    requires Forest(cats) && Present(cats, a)
    ensures Distinct(DescendantsWithin(cats, a, depth))
    decreases depth, 0
  {
    if depth > 0 {
      var kids := ChildIds(cats, a);
      var n := |Lineage(cats, a)| + 1;
      ChildrenOneDeeper(cats, a);
      ChildIdsDistinct(cats, a);
      EachDistinct(cats, kids, depth - 1, n);
      EachBelow(cats, kids, depth - 1, n);
      DistinctAppend(kids, DescendantsOfEach(cats, kids, depth - 1));
    }
  }

  /** The lists of distinct categories at one depth name no category twice. */
  lemma {:induction false} EachDistinct(cats: seq<Category>, xs: seq<nat>, depth: nat, n: nat)
    requires Forest(cats) && 0 < n && Distinct(xs)
    requires forall x :: x in xs ==> Present(cats, x) && |Lineage(cats, x)| == n
    ensures Distinct(DescendantsOfEach(cats, xs, depth))
    decreases depth, 1, |xs|
  {
    if xs != [] {
      var init, last := xs[..|xs| - 1], xs[|xs| - 1];
      InitIn(xs);
      DistinctLast(xs, |xs|);
      EachDistinct(cats, init, depth, n);
      WithinDistinct(cats, last, depth);
      EachBelow(cats, init, depth, n);
      WithinUnder(cats, last, depth, n);
      DistinctAppend(DescendantsOfEach(cats, init, depth), DescendantsWithin(cats, last, depth));
    }
  }

  /** `Descendants(a)` names no category twice. */
  lemma DescendantsDistinct(cats: seq<Category>, a: nat)
    requires Forest(cats) && Present(cats, a)
    ensures Distinct(Descendants(cats, a))
  {
    WithinDistinct(cats, a, |cats| + 2 - |Lineage(cats, a)|);
  }

  lemma ConcatAssoc(a: seq<nat>, b: seq<nat>, c: seq<nat>)
    ensures (a + b) + c == a + (b + c)
  {
  }

  /** The lists of the first `i + 1` entries of `xs` are those of the first `i`, then the list of `xs[i]`. */
  lemma EachStep(cats: seq<Category>, xs: seq<nat>, i: nat, depth: nat)
    requires i < |xs|
    ensures DescendantsOfEach(cats, xs[..i + 1], depth) ==
      DescendantsOfEach(cats, xs[..i], depth) + DescendantsWithin(cats, xs[i], depth)
  {
    assert xs[..i + 1][..i] == xs[..i];
  }

  lemma ChildDepth(cats: seq<Category>, id: nat, x: nat)
    requires Forest(cats) && Present(cats, id) && x in ChildIds(cats, id)
    ensures Present(cats, x) && |Lineage(cats, x)| == |Lineage(cats, id)| + 1
  {
    ChildLineage(cats, id, x);
  }

  /**
   * `Category.get_all_children`: the direct children, then, for each of them
   * in turn, its own descendants. By `DescendantsExactlyBelow` and
   * `DescendantsDistinct` the result lists every category below `id` exactly once.
   */
  method GetAllChildren(cats: seq<Category>, id: nat) returns (children: seq<nat>)
    requires Forest(cats) && Present(cats, id)
    ensures children == Descendants(cats, id)
    decreases |cats| + 1 - |Lineage(cats, id)|
  {
    var direct := ChildIds(cats, id);
    ghost var depth := |cats| + 1 - |Lineage(cats, id)|;
    children := direct;
    var i := 0;
    while i < |direct|
      invariant 0 <= i <= |direct|
      invariant children == direct + DescendantsOfEach(cats, direct[..i], depth)
    {
      var x := direct[i];
      ChildDepth(cats, id, x);
      var more := GetAllChildren(cats, x);
      EachStep(cats, direct, i, depth);
      ConcatAssoc(direct, DescendantsOfEach(cats, direct[..i], depth), more);
      children := children + more;
      i := i + 1;
    }
    assert direct[..i] == direct;
  }

  // ---------------------------------------------------------------------
  // Listing and saving

  /** `Category.objects.filter(is_active=True)` in the default ordering. */
  function ActiveCategories(cats: seq<Category>): (r: seq<Category>)
    ensures forall c :: c in r <==> c in cats && c.isActive
  {
    if cats == [] then []
    else (if cats[0].isActive then [cats[0]] else []) + ActiveCategories(cats[1..])
  }

  /** The active categories come out in the default ordering. */
  lemma {:induction false} ActiveCategoriesSorted(cats: seq<Category>)
    requires Sorted(cats)
    ensures Sorted(ActiveCategories(cats))
  {
    if cats != [] {
      assert cats == [cats[0]] + cats[1..];
      SortedCons(cats[0], cats[1..]);
      ActiveCategoriesSorted(cats[1..]);
      if cats[0].isActive {
        SortedCons(cats[0], ActiveCategories(cats[1..]));
      } else {
        assert ActiveCategories(cats) == ActiveCategories(cats[1..]);
      }
    }
  }

  /** `Category.save`: a blank slug is filled in from the name. */
  function SlugOnSave(c: Category, slugify: string -> string): (r: Category)
    ensures r == c.(slug := r.slug)
    ensures c.slug != [] ==> r.slug == c.slug
    ensures c.slug == [] ==> r.slug == slugify(c.name)
  {
    if c.slug == [] then c.(slug := slugify(c.name)) else c
  }
}
