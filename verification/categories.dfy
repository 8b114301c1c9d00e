/** The category filter of the mod list page: the catalog's category forest
    is flattened depth-first, in pre-order, into rows of (indent, id), after a
    leading "no filter" row. */
module Categories {
  import opened Optional

  /** A catalog category: its numeric id and its ordered subcategories. */
  datatype Category = Category(id: int, subcategories: seq<Category>)

  /** One row of the category selector: nesting depth and category id. */
  datatype CategoryIndented = CategoryIndented(indent: int, categoryId: int)

  /** The "no filter" row put first in the selector; id 0 means "any category". */
  const NoFilter := CategoryIndented(0, 0)

  /** Number of categories in a tree, counting the root. */
  function Size(c: Category): nat
    decreases c
  {
    1 + ForestSize(c.subcategories)
  }

  /** Number of categories in a forest. */
  function ForestSize(cs: seq<Category>): nat
    decreases cs
  {
    if cs == [] then 0 else Size(cs[0]) + ForestSize(cs[1..])
  }

  /** Whether category id `id` occurs anywhere in the tree. */
  predicate Occurs(id: int, c: Category)
    decreases c
  {
    id == c.id || OccursInForest(id, c.subcategories)
  }

  /** Whether category id `id` occurs anywhere in the forest. */
  predicate OccursInForest(id: int, cs: seq<Category>)
    decreases cs
  {
    cs != [] && (Occurs(id, cs[0]) || OccursInForest(id, cs[1..]))
  }

  /** No row is more than one level deeper than the row before it: a row can
      only open the subcategories of the row just above it. The neighbouring
      rows are named by two variables, with both indexings as the trigger, so
      that instantiating the quantifier for one row does not produce a term
      that instantiates it again for the row before (a matching loop). */
  ghost predicate DeepensByAtMostOne(rows: seq<CategoryIndented>) {
    forall j, k {:trigger rows[j], rows[k]} :: 0 <= j < k < |rows| && k == j + 1 ==> rows[k].indent <= rows[j].indent + 1
  }

  /** The rows that `resolveCategory(c, indent, result)` appends to `result`:
      the category itself at `indent`, then each subcategory's rows, in
      order, one level deeper. The whole block of a category is its own row
      followed by rows strictly deeper than it. */
  function Resolve(c: Category, indent: int): (r: seq<CategoryIndented>)
    decreases c
    ensures |r| == Size(c)
    ensures r[0] == CategoryIndented(indent, c.id)
  {
    [CategoryIndented(indent, c.id)] + ResolveForest(c.subcategories, indent + 1)
  }

  /** The rows of a sequence of sibling categories at depth `indent`. A
      non-empty result starts at exactly `indent` and never goes shallower. */
  function ResolveForest(cs: seq<Category>, indent: int): (r: seq<CategoryIndented>)
    decreases cs
    ensures |r| == ForestSize(cs)
    ensures r != [] ==> r[0].indent == indent
  {
    if cs == [] then [] else Resolve(cs[0], indent) + ResolveForest(cs[1..], indent)
  }

  /** Joining two well-nested row sequences keeps them well nested when the
      second does not start more than one level below the end of the first. */
  lemma DeepensAppend(a: seq<CategoryIndented>, b: seq<CategoryIndented>)
    requires DeepensByAtMostOne(a) && DeepensByAtMostOne(b)
    requires a != [] && b != [] ==> b[0].indent <= a[|a| - 1].indent + 1
    ensures DeepensByAtMostOne(a + b)
  {
    var ab := a + b;
    forall j, k | 0 <= j < k < |ab| && k == j + 1
      ensures ab[k].indent <= ab[j].indent + 1
    {
      if k < |a| {
        assert ab[j] == a[j] && ab[k] == a[k];
      } else if j >= |a| {
        assert ab[j] == b[j - |a|] && ab[k] == b[k - |a|];
      } else {
        assert ab[j] == a[|a| - 1] && ab[k] == b[0];
      }
    }
  }

  /** The block of a category: its own row, then only rows strictly deeper
      than it, each at most one level deeper than the row before. */
  lemma {:induction false} ResolveNesting(c: Category, indent: int)
    ensures forall k :: 1 <= k < |Resolve(c, indent)| ==> Resolve(c, indent)[k].indent > indent
    ensures DeepensByAtMostOne(Resolve(c, indent))
    decreases c
  {
    var children := ResolveForest(c.subcategories, indent + 1);
    ResolveForestNesting(c.subcategories, indent + 1);
    DeepensAppend([CategoryIndented(indent, c.id)], children);
    assert forall k :: 1 <= k < |Resolve(c, indent)| ==> Resolve(c, indent)[k] == children[k - 1];
  }

  /** The rows of a forest at `indent` never go shallower than `indent`, and
      each is at most one level deeper than the row before. */
  lemma {:induction false} ResolveForestNesting(cs: seq<Category>, indent: int)
    ensures forall k :: 0 <= k < |ResolveForest(cs, indent)| ==> ResolveForest(cs, indent)[k].indent >= indent
    ensures DeepensByAtMostOne(ResolveForest(cs, indent))
    decreases cs
  {
    if cs != [] {
      var head := Resolve(cs[0], indent);
      var tail := ResolveForest(cs[1..], indent);
      ResolveNesting(cs[0], indent);
      ResolveForestNesting(cs[1..], indent);
      DeepensAppend(head, tail);
      assert forall k :: |head| <= k < |head + tail| ==> (head + tail)[k] == tail[k - |head|];
    }
  }

  /** The full list shown in the selector: the "no filter" row, then every
      top-level category's rows starting at indent 0. */
  function CategoryList(categories: seq<Category>): seq<CategoryIndented> {
    [NoFilter] + ResolveForest(categories, 0)
  }

  /** The ids of the rows at exactly depth `indent`, in order. */
  function IdsAtDepth(rows: seq<CategoryIndented>, indent: int): seq<int> {
    if rows == [] then []
    else (if rows[0].indent == indent then [rows[0].categoryId] else []) + IdsAtDepth(rows[1..], indent)
  }

  /** The ids of a forest's roots, in order. */
  function RootIds(cs: seq<Category>): seq<int> {
    seq(|cs|, i requires 0 <= i < |cs| => cs[i].id)
  }

  /** Rebuilds the forest whose rows start at depth `indent` at the front of
      `rows`: a row at `indent` opens a category, the rows after it that are
      one level deeper are its subcategories, and the forest ends at the first
      row that is not at `indent`. Returns the forest and the rows it did not
      consume. */
  function ParseForest(rows: seq<CategoryIndented>, indent: int): (p: (seq<Category>, seq<CategoryIndented>))
    decreases |rows|
    ensures |p.1| <= |rows|
    ensures p.0 != [] ==> |p.1| < |rows|
  {
    if rows == [] || rows[0].indent != indent then ([], rows)
    else
      var (children, afterChildren) := ParseForest(rows[1..], indent + 1);
      var (siblings, rest) := ParseForest(afterChildren, indent);
      ([Category(rows[0].categoryId, children)] + siblings, rest)
  }

  /** Reads a selector list back into the category forest it shows, or None
      when the list is not a "no filter" row followed by a complete forest. */
  function Unflatten(list: seq<CategoryIndented>): Option<seq<Category>> {
    if list == [] || list[0] != NoFilter then None
    else
      var (forest, rest) := ParseForest(list[1..], 0);
      if rest == [] then Some(forest) else None
  }

  /** Flattening loses nothing: parsing the rows of a forest at `indent`,
      followed by rows that are shallower, gives back the forest, with every
      subcategory under its own parent and in its original order, and leaves
      the shallower rows unconsumed. */
  lemma {:induction false} ParseResolveForest(cs: seq<Category>, indent: int, tail: seq<CategoryIndented>)
    requires tail == [] || tail[0].indent < indent
    ensures ParseForest(ResolveForest(cs, indent) + tail, indent) == (cs, tail)
    decreases cs
  {
    if cs == [] {
      assert ResolveForest(cs, indent) + tail == tail;
    } else {
      var c := cs[0];
      var siblingRows := ResolveForest(cs[1..], indent) + tail;
      var rows := ResolveForest(cs, indent) + tail;
      ResolveForestCons(cs, indent, tail);
      ParseResolveForest(c.subcategories, indent + 1, siblingRows);
      ParseResolveForest(cs[1..], indent, tail);
      ParseOpens(rows, indent, c.id, c.subcategories, siblingRows, cs[1..], tail);
      assert [Category(c.id, c.subcategories)] + cs[1..] == cs;
    }
  }

  /** How the rows of a non-empty forest, followed by `tail`, split up: the
      first root's row, its subcategories' rows, then the rest. */
  lemma ResolveForestCons(cs: seq<Category>, indent: int, tail: seq<CategoryIndented>)
    requires cs != []
    requires tail == [] || tail[0].indent < indent
    ensures var rows := ResolveForest(cs, indent) + tail;
            var siblingRows := ResolveForest(cs[1..], indent) + tail;
            && rows[0] == CategoryIndented(indent, cs[0].id)
            && rows[1..] == ResolveForest(cs[0].subcategories, indent + 1) + siblingRows
            && (siblingRows == [] || siblingRows[0].indent < indent + 1)
  {
    var c := cs[0];
    var row := CategoryIndented(indent, c.id);
    var childRows := ResolveForest(c.subcategories, indent + 1);
    var laterRows := ResolveForest(cs[1..], indent);
    assert ResolveForest(cs, indent) == ([row] + childRows) + laterRows;
    SplitFirstRow(row, childRows, laterRows, tail);
    if laterRows == [] {
      assert laterRows + tail == tail;
    }
  }

  /** Where the first row ends and the rest begins in a concatenation of
      row blocks. */
  lemma SplitFirstRow(row: CategoryIndented, a: seq<CategoryIndented>, b: seq<CategoryIndented>, c: seq<CategoryIndented>)
    ensures (([row] + a) + b + c)[0] == row
    ensures (([row] + a) + b + c)[1..] == a + (b + c)
  {
    assert ([row] + a) + b + c == [row] + (a + (b + c));
  }

  /** One parsing step: a row at the current depth opens a category whose
      subcategories are parsed one level deeper, and its siblings follow. */
  lemma ParseOpens(rows: seq<CategoryIndented>, indent: int, id: int, children: seq<Category>,
                   afterChildren: seq<CategoryIndented>, siblings: seq<Category>, rest: seq<CategoryIndented>)
    requires rows != [] && rows[0] == CategoryIndented(indent, id)
    requires ParseForest(rows[1..], indent + 1) == (children, afterChildren)
    requires ParseForest(afterChildren, indent) == (siblings, rest)
    ensures ParseForest(rows, indent) == ([Category(id, children)] + siblings, rest)
  {
  }

  /** The selector list determines the category forest: reading it back
      yields exactly the forest it was built from. */
  lemma UnflattenCategoryList(categories: seq<Category>)
    ensures Unflatten(CategoryList(categories)) == Some(categories)
  {
    var list := CategoryList(categories);
    assert list[1..] == ResolveForest(categories, 0) + [];
    ParseResolveForest(categories, 0, []);
  }

  /** Two different forests never produce the same selector list. */
  lemma CategoryListInjective(a: seq<Category>, b: seq<Category>)
    requires CategoryList(a) == CategoryList(b)
    ensures a == b
  {
    UnflattenCategoryList(a);
    UnflattenCategoryList(b);
  }

  /** Shape of the selector list: the "no filter" row first, then one row per
      category of the forest, top-level categories at indent 0, nothing
      shallower than 0, and each row at most one level deeper than the one
      before it. */
  lemma CategoryListShape(categories: seq<Category>)
    ensures |CategoryList(categories)| == 1 + ForestSize(categories)
    ensures CategoryList(categories)[0] == NoFilter
    ensures forall k :: 0 <= k < |CategoryList(categories)| ==> CategoryList(categories)[k].indent >= 0
    ensures DeepensByAtMostOne(CategoryList(categories))
  {
    var rows := ResolveForest(categories, 0);
    ResolveForestNesting(categories, 0);
    DeepensAppend([NoFilter], rows);
    assert forall k :: 1 <= k < 1 + |rows| ==> CategoryList(categories)[k] == rows[k - 1];
  }

  /** Filtering rows by depth distributes over concatenation. */
  lemma {:induction false} IdsAtDepthAppend(a: seq<CategoryIndented>, b: seq<CategoryIndented>, indent: int)
    ensures IdsAtDepth(a + b, indent) == IdsAtDepth(a, indent) + IdsAtDepth(b, indent)
  {
    if a == [] {
      assert a + b == b;
    } else {
      var first := if a[0].indent == indent then [a[0].categoryId] else [];
      assert (a + b)[0] == a[0];
      assert (a + b)[1..] == a[1..] + b;
      IdsAtDepthAppend(a[1..], b, indent);
      assert IdsAtDepth(a + b, indent) == first + (IdsAtDepth(a[1..], indent) + IdsAtDepth(b, indent));
      assert IdsAtDepth(a, indent) == first + IdsAtDepth(a[1..], indent);
    }
  }

  /** Rows strictly deeper than `indent` contribute nothing at `indent`. */
  lemma {:induction false} IdsAtDepthDeeper(rows: seq<CategoryIndented>, indent: int)
    requires forall k :: 0 <= k < |rows| ==> rows[k].indent > indent
    ensures IdsAtDepth(rows, indent) == []
  {
    if rows != [] {
      IdsAtDepthDeeper(rows[1..], indent);
    }
  }

  /** The rows at a forest's own depth are exactly its roots, in their given
      order: siblings keep their order and nothing else lands at their depth. */
  lemma {:induction false} RootsKeepOrder(cs: seq<Category>, indent: int)
    ensures IdsAtDepth(ResolveForest(cs, indent), indent) == RootIds(cs)
    decreases cs
  {
    if cs != [] {
      var c := cs[0];
      var own := Resolve(c, indent);
      IdsAtDepthAppend(own, ResolveForest(cs[1..], indent), indent);
      ResolveNesting(c, indent);
      IdsAtDepthDeeper(own[1..], indent);
      assert own == [own[0]] + own[1..];
      IdsAtDepthAppend([own[0]], own[1..], indent);
      RootsKeepOrder(cs[1..], indent);
      assert RootIds(cs) == [c.id] + RootIds(cs[1..]);
    }
  }

  /** Every row of a forest names a category of that forest. */
  lemma {:induction false} RowsOccurInForest(cs: seq<Category>, indent: int)
    ensures forall k :: 0 <= k < |ResolveForest(cs, indent)| ==>
      OccursInForest(ResolveForest(cs, indent)[k].categoryId, cs)
    decreases cs
  {
    if cs != [] {
      var c := cs[0];
      var own: seq<CategoryIndented> := Resolve(c, indent);
      var rest: seq<CategoryIndented> := ResolveForest(cs[1..], indent);
      RowsOccurInForest(c.subcategories, indent + 1);
      RowsOccurInForest(cs[1..], indent);
      forall k | 0 <= k < |own + rest|
        ensures OccursInForest((own + rest)[k].categoryId, cs)
      {
        if k == 0 {
        } else if k < |own| {
          assert own[k] == ResolveForest(c.subcategories, indent + 1)[k - 1];
        } else {
          assert (own + rest)[k] == rest[k - |own|];
        }
      }
    }
  }

  /** Every row of the selector is the "no filter" row or names a category of
      the forest it was built from. */
  lemma CategoryListRowsOccur(categories: seq<Category>, k: int)
    requires 0 <= k < |CategoryList(categories)|
    ensures k == 0 ==> CategoryList(categories)[k] == NoFilter
    ensures k > 0 ==> OccursInForest(CategoryList(categories)[k].categoryId, categories)
  {
    RowsOccurInForest(categories, 0);
    if k > 0 {
      assert CategoryList(categories)[k] == ResolveForest(categories, 0)[k - 1];
    }
  }

  /** The imperative `resolveCategory`: appends the rows of `c` to `result`,
      first `c` itself, then, for each subcategory in turn, its rows one
      level deeper. */
  method ResolveCategory(c: Category, indent: int, result: seq<CategoryIndented>) returns (out: seq<CategoryIndented>)
    decreases c
    ensures out == result + Resolve(c, indent)
  {
    var head := result + [CategoryIndented(indent, c.id)];
    var subs := c.subcategories;
    out := head;
    var i := 0;
    while i < |subs|
      invariant 0 <= i <= |subs|
      invariant out == head + ResolveForest(subs[..i], indent + 1)
    {
      var sub := subs[i];
      assert sub in c.subcategories;
      ghost var done := ResolveForest(subs[..i], indent + 1);
      out := ResolveCategory(sub, indent + 1, out);
      assert out == head + (done + Resolve(sub, indent + 1));
      ResolveForestSnoc(subs[..i], sub, indent + 1);
      assert subs[..i + 1] == subs[..i] + [sub];
      i := i + 1;
    }
    assert subs[..i] == subs;
    assert result + Resolve(c, indent) == head + ResolveForest(subs, indent + 1);
  }

  /** Appending a category to a forest appends its rows. */
  lemma {:induction false} ResolveForestSnoc(cs: seq<Category>, c: Category, indent: int)
    ensures ResolveForest(cs + [c], indent) == ResolveForest(cs, indent) + Resolve(c, indent)
    decreases cs
  {
    if cs == [] {
      assert [c][1..] == [];
      assert cs + [c] == [c];
    } else {
      assert (cs + [c])[0] == cs[0];
      assert (cs + [c])[1..] == cs[1..] + [c];
      ResolveForestSnoc(cs[1..], c, indent);
    }
  }

  /** The list build when the categories arrive: the "no filter" row, then
      `resolveCategory(category, 0, result)` for each top-level category. */
  method BuildCategoryList(categories: seq<Category>) returns (result: seq<CategoryIndented>)
    ensures result == CategoryList(categories)
    ensures |result| == 1 + ForestSize(categories)
    ensures result[0] == NoFilter
  {
    result := [NoFilter];
    var i := 0;
    while i < |categories|
      invariant 0 <= i <= |categories|
      invariant result == [NoFilter] + ResolveForest(categories[..i], 0)
    {
      ResolveForestSnoc(categories[..i], categories[i], 0);
      assert categories[..i + 1] == categories[..i] + [categories[i]];
      result := ResolveCategory(categories[i], 0, result);
      i := i + 1;
    }
    assert categories[..i] == categories;
  }

  /** An example: A(B, C(D)) with ids 1..4 flattens to
      (0,0) (0,A) (1,B) (1,C) (2,D). */
  lemma ExampleForest()
    ensures CategoryList([Category(1, [Category(2, []), Category(3, [Category(4, [])])])])
         == [NoFilter, CategoryIndented(0, 1), CategoryIndented(1, 2), CategoryIndented(1, 3), CategoryIndented(2, 4)]
  {
  }
}
