/** The admin category table: add, edit and delete categories, and move a row up or
    down by swapping it with its neighbour and renumbering every `order` field. */
module CategoryManagement {
  import opened JsText
  import Seqs

  datatype Category = Category(
    id: string,
    name: string,
    description: string,
    postCount: int,
    isVisible: bool,
    order: int,
    createdAt: string)

  datatype Direction = Up | Down

  /** What a move does: an early return, a new table, or an uncaught `TypeError`
      (in which case the table is left as it was). */
  datatype MoveResult = Unmoved | Reordered(categories: seq<Category>) | TypeError

  // ---- list functions (the spread/map/filter expressions of the handlers) ----

  /** `categories.findIndex((c) => c.id === id)`: the first row with that id, or -1. */
  function FindIndex(cats: seq<Category>, id: string): (r: int)
    ensures -1 <= r < |cats|
    ensures 0 <= r ==> cats[r].id == id && forall k :: 0 <= k < r ==> cats[k].id != id
    ensures r == -1 <==> forall k :: 0 <= k < |cats| ==> cats[k].id != id
  {
    if cats == [] then -1
    else if cats[0].id == id then 0
    else
      var r := FindIndex(cats[1..], id);
      if r == -1 then -1 else r + 1
  }

  /** Every row's `order` is its position counted from 1. */
  predicate Numbered(cats: seq<Category>)
  {
    forall k :: 0 <= k < |cats| ==> cats[k].order == k + 1
  }

  /** The table after a successful add. */
  function Added(cats: seq<Category>, name: string, description: string, isVisible: bool, now: string): seq<Category>
  {
    cats + [Category(DecimalString(|cats| + 1), name, description, 0, isVisible, |cats| + 1, now)]
  }

  /** The table after a successful edit of the rows carrying `id`. */
  function Edited(cats: seq<Category>, id: string, name: string, description: string, isVisible: bool): seq<Category>
  {
    seq(|cats|, k requires 0 <= k < |cats| =>
      if cats[k].id == id then cats[k].(name := name, description := description, isVisible := isVisible)
      else cats[k])
  }

  /** The table after deleting the rows carrying `id`. */
  function Removed(cats: seq<Category>, id: string): seq<Category>
  {
    Seqs.Filter(cats, (c: Category) => c.id != id)
  }

  function Swapped(cats: seq<Category>, i: nat, j: nat): (r: seq<Category>)
    requires i < |cats| && j < |cats|
  {
    cats[i := cats[j]][j := cats[i]]
  }

  /** The `forEach` that sets every `order` to index + 1. */
  function Renumbered(cats: seq<Category>): seq<Category>
  {
    seq(|cats|, k requires 0 <= k < |cats| => cats[k].(order := k + 1))
  }

  function Neighbour(i: int, direction: Direction): int
  {
    if direction == Up then i - 1 else i + 1
  }

  /** The effect of `handleMoveCategory(id, direction)` on the table. When `id` is absent,
      `findIndex` gives -1: moving up then swaps the non-index keys -1 and -2 and only
      renumbers, while moving down puts `undefined` in slot 0 and the renumbering throws. */
  function Moved(cats: seq<Category>, id: string, direction: Direction): MoveResult
  {
    var i := FindIndex(cats, id);
    if (direction == Up && i == 0) || (direction == Down && i == |cats| - 1) then Unmoved
    else if i < 0 then (if direction == Up then Reordered(Renumbered(cats)) else TypeError)
    else Reordered(Renumbered(Swapped(cats, i, Neighbour(i, direction))))
  }

  /** The row is drawn with its up arrow disabled. */
  predicate UpDisabled(c: Category)
  {
    c.order == 1
  }

  /** The row is drawn with its down arrow disabled. */
  predicate DownDisabled(c: Category, rows: int)
  {
    c.order == rows
  }

  /** The row is drawn with its delete button disabled. */
  predicate DeleteDisabled(c: Category)
  {
    c.postCount > 0
  }

  /** The delete dialog can only have been opened from an enabled delete button, so some
      row carrying the selected id has no posts. Other rows may share that id. */
  predicate DeleteAllowed(cats: seq<Category>, selected: Option<string>)
  {
    selected.Some? ==> exists k :: 0 <= k < |cats| && cats[k].id == selected.value && !DeleteDisabled(cats[k])
  }

  /** No two rows carry the same id. */
  predicate DistinctIds(cats: seq<Category>)
  {
    forall i, j :: 0 <= i < j < |cats| ==> cats[i].id != cats[j].id
  }

  /** The largest number that a row's id renders, 0 for a table without numeric ids. */
  function MaxIdNumber(cats: seq<Category>): (m: nat)
    ensures forall k :: 0 <= k < |cats| ==> IdNumber(cats[k].id) <= m
  {
    if cats == [] then 0
    else
      var rest := MaxIdNumber(cats[1..]);
      assert forall k :: 1 <= k < |cats| ==> cats[k] == cats[1..][k - 1];
      if IdNumber(cats[0].id) > rest then IdNumber(cats[0].id) else rest
  }

  /** An add that mints an id one past the largest numeric id instead of one past the
      length, so that the new id is carried by no row. */
  function AddedFreshId(cats: seq<Category>, name: string, description: string, isVisible: bool, now: string): seq<Category>
  {
    cats + [Category(DecimalString(MaxIdNumber(cats) + 1), name, description, 0, isVisible, |cats| + 1, now)]
  }

  /** The table with every row's `order` cleared, for comparing rows regardless of numbering. */
  function Unnumbered(cats: seq<Category>): (r: seq<Category>)
  {
    seq(|cats|, k requires 0 <= k < |cats| => cats[k].(order := 0))
  }

  // ---- properties ----

  /** An add appends exactly one row, after the unchanged old rows, with no posts, the
      next order number and the next id; it keeps a numbered table numbered. */
  lemma AddAppendsOne(cats: seq<Category>, name: string, description: string, isVisible: bool, now: string)
    ensures var r := Added(cats, name, description, isVisible, now);
      && |r| == |cats| + 1 && r[..|cats|] == cats
      && r[|cats|].id == DecimalString(|cats| + 1) && ParseDecimal(r[|cats|].id) == |cats| + 1
      && r[|cats|].name == name && r[|cats|].description == description
      && r[|cats|].isVisible == isVisible && r[|cats|].postCount == 0
      && r[|cats|].order == |cats| + 1 && r[|cats|].createdAt == now
      && (Numbered(cats) ==> Numbered(r))
  {
    DecimalRoundTrip(|cats| + 1);
  }

  /** Ids are not checked for uniqueness: deleting a row and then adding one can mint an
      id that a remaining row already has. */
  lemma AddAfterDeleteCanRepeatAnId()
    ensures var cats := [Category("1", "a", "", 0, true, 1, ""), Category("2", "b", "", 0, true, 2, "")];
      var r := Added(Removed(cats, "1"), "c", "", true, "");
      |r| == 2 && r[0].id == r[1].id == "2"
  {
    var cats := [Category("1", "a", "", 0, true, 1, ""), Category("2", "b", "", 0, true, 2, "")];
    assert cats[1..][1..] == [];
    assert Removed(cats, "1") == [cats[1]];
    assert DecimalString(2) == "2";
  }

  /** An edit touches only `name`, `description` and `isVisible`, and only on the rows
      carrying the selected id; everything else is unchanged. */
  lemma EditChangesOnlySelected(cats: seq<Category>, id: string, name: string, description: string, isVisible: bool)
    ensures var r := Edited(cats, id, name, description, isVisible);
      && |r| == |cats|
      && (forall k :: 0 <= k < |cats| ==>
            r[k].id == cats[k].id && r[k].postCount == cats[k].postCount
            && r[k].order == cats[k].order && r[k].createdAt == cats[k].createdAt)
      && (forall k :: 0 <= k < |cats| && cats[k].id == id ==>
            r[k].name == name && r[k].description == description && r[k].isVisible == isVisible)
      && (forall k :: 0 <= k < |cats| && cats[k].id != id ==> r[k] == cats[k])
      && (Numbered(cats) ==> Numbered(r))
  {
  }

  /** Saving the same edit twice is the same as saving it once. */
  lemma EditIdempotent(cats: seq<Category>, id: string, name: string, description: string, isVisible: bool)
    ensures Edited(Edited(cats, id, name, description, isVisible), id, name, description, isVisible)
         == Edited(cats, id, name, description, isVisible)
  {
  }

  /** Delete removes exactly the rows carrying the id and keeps the others in order. */
  lemma DeleteRemovesExactly(cats: seq<Category>, id: string, c: Category)
    ensures c in Removed(cats, id) <==> c in cats && c.id != id
    ensures forall k :: 0 <= k < |Removed(cats, id)| ==> Removed(cats, id)[k].id != id
    ensures |Removed(cats, id)| == |cats| - Seqs.Count(cats, (x: Category) => x.id == id)
  {
    Seqs.FilterMembership(cats, (x: Category) => x.id != id, c);
    RemovedLength(cats, id);
  }

  lemma {:induction false} RemovedLength(cats: seq<Category>, id: string)
    ensures |Removed(cats, id)| == |cats| - Seqs.Count(cats, (x: Category) => x.id == id)
  {
    if cats != [] {
      RemovedLength(cats[1..], id);
    }
  }

  /** Deletion works row by row: splitting the table anywhere, the survivors of each
      part stay in their order. */
  lemma DeleteKeepsOrder(a: seq<Category>, b: seq<Category>, id: string)
    ensures Removed(a + b, id) == Removed(a, id) + Removed(b, id)
  {
    Seqs.FilterAppend(a, b, (c: Category) => c.id != id);
  }

  /** On a table whose ids are distinct, the delete button's enablement rule means that
      only a row whose delete button is enabled is removed. */
  lemma DeleteRemovesOnlyEmpty(cats: seq<Category>, id: string, c: Category)
    requires DistinctIds(cats)
    requires DeleteAllowed(cats, Some(id))
    requires c in cats && c !in Removed(cats, id)
    ensures !DeleteDisabled(c) && c.id == id
  {
    DeleteRemovesExactly(cats, id, c);
    var m :| 0 <= m < |cats| && cats[m] == c;
    var k :| 0 <= k < |cats| && cats[k].id == id && !DeleteDisabled(cats[k]);
    assert m == k;
  }

  /** Because the add can repeat an id, the enabled delete button of a row without posts
      also removes a row with posts: from rows 1, 2 and 3 (3 with five posts), delete 1 and
      add a row, which gets id "3"; its enabled button deletes both rows "3". */
  lemma DeleteCanRemoveRowWithPosts()
    ensures var cats := [Category("1", "a", "", 0, true, 1, ""), Category("2", "b", "", 0, true, 2, ""),
                         Category("3", "c", "", 5, true, 3, "")];
      var after := Added(Removed(cats, "1"), "d", "", true, "");
      && |after| == 3 && !DeleteDisabled(after[2]) && after[2].id == "3"
      && DeleteAllowed(after, Some("3"))
      && DeleteDisabled(after[1]) && after[1] in after && after[1] !in Removed(after, "3")
  {
    var b := Category("2", "b", "", 0, true, 2, "");
    var c := Category("3", "c", "", 5, true, 3, "");
    RemoveFirstOfThree(Category("1", "a", "", 0, true, 1, ""), b, c);
    assert DecimalString(3) == "3";
    var after := Added([b, c], "d", "", true, "");
    assert after[1] == c;
    DeleteRemovesExactly(after, "3", c);
  }

  /** Deleting id "1" from rows "1", "2", "3" keeps the last two. */
  lemma RemoveFirstOfThree(a: Category, b: Category, c: Category)
    requires a.id == "1" && b.id == "2" && c.id == "3"
    ensures Removed([a, b, c], "1") == [b, c]
  {
    var keep := (x: Category) => x.id != "1";
    assert [a, b, c][1..] == [b, c] && [b, c][1..] == [c] && [c][1..] == [];
    assert Seqs.Filter([c], keep) == [c];
    assert Seqs.Filter([b, c], keep) == [b, c];
  }

  /** The id minted by `AddedFreshId` is carried by no row of the table. */
  lemma FreshIdIsNew(cats: seq<Category>)
    ensures forall k :: 0 <= k < |cats| ==> cats[k].id != DecimalString(MaxIdNumber(cats) + 1)
  {
    var n := MaxIdNumber(cats) + 1;
    var newId := DecimalString(n);
    IdNumberOfDecimal(n);
    forall k | 0 <= k < |cats| ensures cats[k].id != newId {
      assert IdNumber(cats[k].id) < n;
    }
  }

  /** With ids minted by `AddedFreshId`, adding keeps the ids distinct, so an enabled
      delete button removes only its own row. */
  lemma AddFreshIdKeepsIdsDistinct(cats: seq<Category>, name: string, description: string, isVisible: bool, now: string)
    requires DistinctIds(cats)
    ensures DistinctIds(AddedFreshId(cats, name, description, isVisible, now))
    ensures var r := AddedFreshId(cats, name, description, isVisible, now);
      |r| == |cats| + 1 && r[..|cats|] == cats && r[|cats|].postCount == 0 && r[|cats|].order == |cats| + 1
  {
    var r := AddedFreshId(cats, name, description, isVisible, now);
    FreshIdIsNew(cats);
    forall i, j | 0 <= i < j < |r| ensures r[i].id != r[j].id {
      assert r[i] == cats[i];
    }
  }

  /** Deleting keeps the ids of a table distinct. */
  lemma RemovedKeepsIdsDistinct(cats: seq<Category>, id: string)
    requires DistinctIds(cats)
    ensures DistinctIds(Removed(cats, id))
  {
    var keep := (c: Category) => c.id != id;
    var r := Removed(cats, id);
    assert Seqs.Distinct(cats);
    Seqs.FilterKeepsDistinct(cats, keep);
    forall i, j | 0 <= i < j < |r| ensures r[i].id != r[j].id {
      var m :| 0 <= m < |cats| && cats[m] == r[i];
      var n :| 0 <= n < |cats| && cats[n] == r[j];
      assert r[i] != r[j];
      assert m < n || n < m;
    }
  }

  /** Saving an edit keeps the ids of a table distinct: it never touches an id. */
  lemma EditedKeepsIdsDistinct(cats: seq<Category>, id: string, name: string, description: string, isVisible: bool)
    requires DistinctIds(cats)
    ensures DistinctIds(Edited(cats, id, name, description, isVisible))
  {
  }

  /** Deleting a row that is not the last leaves a gap in the numbering; only a later
      move renumbers the table. */
  lemma DeleteCanBreakNumbering()
    ensures var cats := [Category("1", "a", "", 0, true, 1, ""), Category("2", "b", "", 0, true, 2, "")];
      Numbered(cats) && !Numbered(Removed(cats, "1"))
  {
    var cats := [Category("1", "a", "", 0, true, 1, ""), Category("2", "b", "", 0, true, 2, "")];
    assert cats[1..][1..] == [];
    assert Removed(cats, "1") == [cats[1]];
  }

  /** A move is an early return exactly at the boundary named by the direction. */
  lemma MoveNoOpAtBoundary(cats: seq<Category>, id: string, direction: Direction)
    ensures Moved(cats, id, direction) == Unmoved <==>
      (direction == Up && FindIndex(cats, id) == 0) || (direction == Down && FindIndex(cats, id) == |cats| - 1)
  {
  }

  /** An id no row carries: moving up only renumbers the table, moving down fails with a
      `TypeError` on a non-empty table and returns early on an empty one. */
  lemma MoveUnknownId(cats: seq<Category>, id: string)
    requires forall k :: 0 <= k < |cats| ==> cats[k].id != id
    ensures Moved(cats, id, Up) == Reordered(Renumbered(cats))
    ensures Moved(cats, id, Down) == if cats == [] then Unmoved else TypeError
  {
  }

  /** An effective move leaves every row numbered by its position. */
  lemma MoveRenumbers(cats: seq<Category>, id: string, direction: Direction)
    requires Moved(cats, id, direction).Reordered?
    ensures Numbered(Moved(cats, id, direction).categories)
    ensures |Moved(cats, id, direction).categories| == |cats|
  {
  }

  lemma SwappedIsPermutation(s: seq<Category>, i: nat, j: nat)
    requires i < |s| && j < |s|
    ensures multiset(Swapped(s, i, j)) == multiset(s)
  {
    if i != j {
      var t := s[i := s[j]];
      assert t[j] == s[j];
      var a := multiset(s) - multiset{s[i]};
      assert multiset(t) == a + multiset{s[j]};
      assert multiset(t[j := s[i]]) == a + multiset{s[i]};
    }
  }

  /** Moving a present row away from its boundary swaps it with its neighbour: apart from
      the `order` numbers, the result is the input with exactly those two rows exchanged,
      hence a permutation of it. */
  lemma MoveSwapsNeighbours(cats: seq<Category>, id: string, direction: Direction)
    requires 0 <= FindIndex(cats, id)
    requires !(direction == Up && FindIndex(cats, id) == 0)
    requires !(direction == Down && FindIndex(cats, id) == |cats| - 1)
    ensures var i := FindIndex(cats, id);
      var j := Neighbour(i, direction);
      && 0 <= j < |cats|
      && Moved(cats, id, direction).Reordered?
      && Unnumbered(Moved(cats, id, direction).categories) == Swapped(Unnumbered(cats), i, j)
      && multiset(Unnumbered(Moved(cats, id, direction).categories)) == multiset(Unnumbered(cats))
  {
    var i := FindIndex(cats, id);
    var j := Neighbour(i, direction);
    var r := Moved(cats, id, direction).categories;
    assert Unnumbered(r) == Swapped(Unnumbered(cats), i, j);
    SwappedIsPermutation(Unnumbered(cats), i, j);
  }

  /** `FindIndex` is determined by its contract: the first position carrying the id. */
  lemma FindIndexAt(cats: seq<Category>, id: string, p: nat)
    requires p < |cats| && cats[p].id == id
    requires forall k :: 0 <= k < p ==> cats[k].id != id
    ensures FindIndex(cats, id) == p
  {
  }

  /** Renumbering a numbered table changes nothing. */
  lemma RenumberedOfNumbered(cats: seq<Category>)
    ensures Numbered(cats) ==> Renumbered(cats) == cats
  {
    if Numbered(cats) {
      assert forall k :: 0 <= k < |cats| ==> Renumbered(cats)[k] == cats[k];
    }
  }

  /** Swapping two rows back after renumbering undoes the swap, up to numbering. */
  lemma SwapBackRestores(cats: seq<Category>, i: nat, j: nat)
    requires i < |cats| && j < |cats|
    ensures Renumbered(Swapped(Renumbered(Swapped(cats, i, j)), j, i)) == Renumbered(cats)
  {
    var once := Renumbered(Swapped(cats, i, j));
    var twice := Renumbered(Swapped(once, j, i));
    assert forall k :: 0 <= k < |cats| ==> twice[k] == Renumbered(cats)[k];
  }

  /** Away from its boundary, a present row is swapped with its neighbour and renumbered. */
  lemma MovedAt(cats: seq<Category>, id: string, direction: Direction, i: nat)
    requires FindIndex(cats, id) == i
    requires 0 <= Neighbour(i, direction) < |cats|
    ensures Moved(cats, id, direction) == Reordered(Renumbered(Swapped(cats, i, Neighbour(i, direction))))
  {
  }

  /** After moving the first row carrying `id` up from position `i`, it is found at `i - 1`. */
  lemma FoundAfterMoveUp(cats: seq<Category>, id: string, i: nat)
    requires FindIndex(cats, id) == i > 0
    ensures Moved(cats, id, Up) == Reordered(Renumbered(Swapped(cats, i, i - 1)))
    ensures FindIndex(Renumbered(Swapped(cats, i, i - 1)), id) == i - 1
  {
    var once := Renumbered(Swapped(cats, i, i - 1));
    assert once[i - 1].id == id;
    assert forall k :: 0 <= k < i - 1 ==> once[k].id == cats[k].id;
    FindIndexAt(once, id, i - 1);
  }

  /** After moving the first row carrying `id` down from position `i`, it is found at `i + 1`
      when the row below did not carry the id too. */
  lemma FoundAfterMoveDown(cats: seq<Category>, id: string, i: nat)
    requires FindIndex(cats, id) == i && i < |cats| - 1
    requires cats[i + 1].id != id
    ensures Moved(cats, id, Down) == Reordered(Renumbered(Swapped(cats, i, i + 1)))
    ensures FindIndex(Renumbered(Swapped(cats, i, i + 1)), id) == i + 1
  {
    var once := Renumbered(Swapped(cats, i, i + 1));
    assert once[i + 1].id == id;
    assert once[i].id == cats[i + 1].id;
    assert forall k :: 0 <= k < i ==> once[k].id == cats[k].id;
    FindIndexAt(once, id, i + 1);
  }

  /** Moving a row up and then moving it back down restores the table up to numbering,
      and exactly when the table was numbered. */
  lemma MoveUpThenDownRestores(cats: seq<Category>, id: string)
    requires 0 < FindIndex(cats, id)
    ensures Moved(cats, id, Up).Reordered?
    ensures Moved(Moved(cats, id, Up).categories, id, Down) == Reordered(Renumbered(cats))
    ensures Numbered(cats) ==> Moved(Moved(cats, id, Up).categories, id, Down) == Reordered(cats)
  {
    var i := FindIndex(cats, id);
    var once := Renumbered(Swapped(cats, i, i - 1));
    FoundAfterMoveUp(cats, id, i);
    assert |once| == |cats|;
    MovedAt(once, id, Down, i - 1);
    SwapBackRestores(cats, i, i - 1);
    RenumberedOfNumbered(cats);
  }

  /** Moving the first row with an id down and then back up restores the table up to
      numbering, provided the row below it carries a different id. */
  lemma MoveDownThenUpRestores(cats: seq<Category>, id: string)
    requires 0 <= FindIndex(cats, id) < |cats| - 1
    requires cats[FindIndex(cats, id) + 1].id != id
    ensures Moved(cats, id, Down).Reordered?
    ensures Moved(Moved(cats, id, Down).categories, id, Up) == Reordered(Renumbered(cats))
  {
    var i := FindIndex(cats, id);
    var once := Renumbered(Swapped(cats, i, i + 1));
    FoundAfterMoveDown(cats, id, i);
    assert |once| == |cats|;
    MovedAt(once, id, Up, i + 1);
    SwapBackRestores(cats, i, i + 1);
  }

  /** A move only permutes the rows and renumbers them, so it keeps the ids of a table
      distinct. */
  lemma MovedKeepsIdsDistinct(cats: seq<Category>, id: string, direction: Direction)
    requires DistinctIds(cats) && Moved(cats, id, direction).Reordered?
    ensures DistinctIds(Moved(cats, id, direction).categories)
  {
    var i := FindIndex(cats, id);
    var r := Moved(cats, id, direction).categories;
    if i < 0 {
      assert r == Renumbered(cats);
      forall a, b | 0 <= a < b < |r| ensures r[a].id != r[b].id {
        assert r[a].id == cats[a].id && r[b].id == cats[b].id;
      }
    } else {
      var j := Neighbour(i, direction);
      assert 0 <= j < |cats|;
      assert r == Renumbered(Swapped(cats, i, j));
      forall a, b | 0 <= a < b < |r| ensures r[a].id != r[b].id {
        var pa := if a == i then j else if a == j then i else a;
        var pb := if b == i then j else if b == j then i else b;
        assert r[a].id == cats[pa].id && r[b].id == cats[pb].id;
        assert pa < pb || pb < pa;
      }
    }
  }

  /** On a numbered table, a row whose id is its own (the first row with that id) has its
      arrows disabled exactly when the handler would return early. */
  lemma ArrowsMatchHandler(cats: seq<Category>, k: nat)
    requires Numbered(cats) && k < |cats| && FindIndex(cats, cats[k].id) == k
    ensures UpDisabled(cats[k]) <==> Moved(cats, cats[k].id, Up) == Unmoved
    ensures DownDisabled(cats[k], |cats|) <==> Moved(cats, cats[k].id, Down) == Unmoved
  {
  }

  /** The arrows follow the row's own `order`, but the handler moves the first row with
      the id. From rows "1", "2" and "3", delete "1", add a row (minted "3") and press
      the enabled down arrow of "2": the table is numbered again and carries "3" twice,
      and on its third row the enabled up arrow returns early while the disabled down
      arrow would move the first row. */
  lemma ArrowsMisleadOnRepeatedId()
    ensures var cats := [Category("1", "a", "", 0, true, 1, ""), Category("2", "b", "", 0, true, 2, ""),
                         Category("3", "c", "", 0, true, 3, "")];
      var added := Added(Removed(cats, "1"), "d", "", true, "");
      var moved := Moved(added, "2", Down);
      && |added| == 3 && added[0].id == "2" && !DownDisabled(added[0], |added|)
      && moved.Reordered?
      && var t := moved.categories;
      && |t| == 3 && Numbered(t) && t[0].id == "3" && t[2].id == "3"
      && !UpDisabled(t[2]) && Moved(t, "3", Up) == Unmoved
      && DownDisabled(t[2], |t|) && Moved(t, "3", Down).Reordered?
  {
    var b := Category("2", "b", "", 0, true, 2, "");
    var c := Category("3", "c", "", 0, true, 3, "");
    RemoveFirstOfThree(Category("1", "a", "", 0, true, 1, ""), b, c);
    assert DecimalString(3) == "3";
    var added := Added([b, c], "d", "", true, "");
    assert added == [b, c, added[2]];
    RepeatedIdAfterMove(b, c, added[2]);
  }

  /** Rows "2", "3", "3", the first numbered 2 and the last 3: the down arrow of "2" is
      enabled, and moving "2" down leaves a numbered table on whose third row the arrows
      disagree with the handler. */
  lemma RepeatedIdAfterMove(x: Category, y: Category, z: Category)
    requires x.id == "2" && y.id == "3" && z.id == "3" && x.order == 2 && z.order == 3
    ensures !DownDisabled(x, 3)
    ensures var moved := Moved([x, y, z], "2", Down);
      && moved.Reordered?
      && var t := moved.categories;
      && |t| == 3 && Numbered(t) && t[0].id == "3" && t[2].id == "3"
      && !UpDisabled(t[2]) && Moved(t, "3", Up) == Unmoved
      && DownDisabled(t[2], |t|) && Moved(t, "3", Down).Reordered?
  {
    MoveFirstDownOfThree(x, y, z, "2");
    var t := [y.(order := 1), x.(order := 2), z.(order := 3)];
    FirstOfThreeKeepsArrows(t[0], t[1], t[2], "3");
  }

  /** Moving the first of three rows down swaps it with the second and renumbers. */
  lemma MoveFirstDownOfThree(x: Category, y: Category, z: Category, id: string)
    requires x.id == id
    ensures Moved([x, y, z], id, Down) == Reordered([y.(order := 1), x.(order := 2), z.(order := 3)])
  {
    assert FindIndex([x, y, z], id) == 0;
  }

  /** When the first and the last of three rows share an id, moving it up returns early
      and moving it down reorders. */
  lemma FirstOfThreeKeepsArrows(x: Category, y: Category, z: Category, id: string)
    requires x.id == id && z.id == id
    ensures Moved([x, y, z], id, Up) == Unmoved && Moved([x, y, z], id, Down).Reordered?
  {
    assert FindIndex([x, y, z], id) == 0;
  }

  // ---- the component's state and handlers ----

  /** The `forEach` that writes `order = index + 1` into every slot. */
  method RenumberInPlace(a: array<Category>)
    modifies a
    ensures a[..] == Renumbered(old(a[..]))
  {
    var k := 0;
    while k < a.Length
      invariant 0 <= k <= a.Length
      invariant forall m :: 0 <= m < k ==> a[m] == old(a[m]).(order := m + 1)
      invariant forall m :: k <= m < a.Length ==> a[m] == old(a[m])
    {
      a[k] := a[k].(order := k + 1);
      k := k + 1;
    }
  }

  /** Swaps two slots of the array through a temporary. */
  method SwapSlots(a: array<Category>, i: nat, j: nat)
    requires i < a.Length && j < a.Length
    modifies a
    ensures a[..] == Swapped(old(a[..]), i, j)
  {
    var temp := a[i];
    a[i] := a[j];
    a[j] := temp;
  }

  class CategoryManager {
    var categories: seq<Category>
    var selectedCategoryId: Option<string>
    var newCategoryName: string
    var newCategoryDescription: string
    var isNewCategoryVisible: bool

    constructor (initial: seq<Category>)
      ensures categories == initial && selectedCategoryId == None
      ensures newCategoryName == "" && newCategoryDescription == "" && isNewCategoryVisible
    {
      categories := initial;
      selectedCategoryId := None;
      newCategoryName := "";
      newCategoryDescription := "";
      isNewCategoryVisible := true;
    }

    /** `handleAddCategory`: a blank name changes nothing; otherwise the row is appended
        and the form is reset. `now` stands for `new Date().toISOString()`. */
    method HandleAddCategory(now: string) returns (added: bool)
      modifies this
      ensures added <==> !IsBlank(old(newCategoryName))
      ensures added ==>
        && categories == Added(old(categories), old(newCategoryName), old(newCategoryDescription), old(isNewCategoryVisible), now)
        && newCategoryName == "" && newCategoryDescription == "" && isNewCategoryVisible
        && selectedCategoryId == old(selectedCategoryId)
      ensures !added ==> unchanged(this)
    {
      if IsBlank(newCategoryName) {
        return false;
      }
      categories := Added(categories, newCategoryName, newCategoryDescription, isNewCategoryVisible, now);
      newCategoryName := "";
      newCategoryDescription := "";
      isNewCategoryVisible := true;
      added := true;
    }

    /** `handleEditCategory`: needs a non-blank name and a selected id; then edits the
        selected rows, clears the selection and resets the form. */
    method HandleEditCategory() returns (saved: bool)
      modifies this
      ensures saved <==> !IsBlank(old(newCategoryName)) && !IsFalsy(old(selectedCategoryId))
      ensures saved ==>
        && categories == Edited(old(categories), old(selectedCategoryId).value, old(newCategoryName),
                                old(newCategoryDescription), old(isNewCategoryVisible))
        && selectedCategoryId == None
        && newCategoryName == "" && newCategoryDescription == "" && isNewCategoryVisible
      ensures !saved ==> unchanged(this)
    {
      if IsBlank(newCategoryName) || IsFalsy(selectedCategoryId) {
        return false;
      }
      categories := Edited(categories, selectedCategoryId.value, newCategoryName, newCategoryDescription, isNewCategoryVisible);
      selectedCategoryId := None;
      newCategoryName := "";
      newCategoryDescription := "";
      isNewCategoryVisible := true;
      saved := true;
    }

    /** The delete button's `onClick`: only enabled on a row without posts. */
    method SelectForDelete(row: nat)
      requires row < |categories| && !DeleteDisabled(categories[row])
      modifies this
      ensures selectedCategoryId == Some(old(categories)[row].id)
      ensures DeleteAllowed(categories, selectedCategoryId)
      ensures categories == old(categories) && newCategoryName == old(newCategoryName)
      ensures newCategoryDescription == old(newCategoryDescription) && isNewCategoryVisible == old(isNewCategoryVisible)
    {
      selectedCategoryId := Some(categories[row].id);
    }

    /** `handleDeleteCategory`: no selected id is a no-op; otherwise the rows carrying the
        id are removed and the selection is cleared. */
    method HandleDeleteCategory() returns (deleted: bool)
      modifies this
      ensures deleted <==> !IsFalsy(old(selectedCategoryId))
      ensures deleted ==> categories == Removed(old(categories), old(selectedCategoryId).value) && selectedCategoryId == None
      ensures newCategoryName == old(newCategoryName) && newCategoryDescription == old(newCategoryDescription)
      ensures isNewCategoryVisible == old(isNewCategoryVisible)
      ensures !deleted ==> unchanged(this)
    {
      if IsFalsy(selectedCategoryId) {
        return false;
      }
      categories := Removed(categories, selectedCategoryId.value);
      selectedCategoryId := None;
      deleted := true;
    }

    /** `handleMoveCategory`: copies the table into a fresh array, swaps the row with its
        neighbour through a temporary, then renumbers every slot in a loop. */
    method HandleMoveCategory(id: string, direction: Direction) returns (result: MoveResult)
      modifies this
      ensures result == Moved(old(categories), id, direction)
      ensures categories == if result.Reordered? then result.categories else old(categories)
      ensures selectedCategoryId == old(selectedCategoryId) && newCategoryName == old(newCategoryName)
      ensures newCategoryDescription == old(newCategoryDescription) && isNewCategoryVisible == old(isNewCategoryVisible)
    {
      var n := |categories|;
      var categoryIndex := FindIndex(categories, id);
      if (direction == Up && categoryIndex == 0) || (direction == Down && categoryIndex == n - 1) {
        assert Moved(categories, id, direction) == Unmoved;
        return Unmoved;
      }
      var cats := categories;
      var newCategories := new Category[n](k requires 0 <= k < n => cats[k]);
      assert newCategories[..] == cats;
      var targetIndex := Neighbour(categoryIndex, direction);
      if 0 <= categoryIndex {
        assert 0 <= targetIndex < n;
        SwapSlots(newCategories, categoryIndex, targetIndex);
        MovedAt(cats, id, direction, categoryIndex);
        assert Moved(cats, id, direction) == Reordered(Renumbered(newCategories[..]));
      } else if direction == Down {
        // slot 0 receives `undefined`, and the renumbering below throws on it
        assert Moved(cats, id, direction) == TypeError;
        return TypeError;
      } else {
        // the writes go to the keys -1 and -2, which are not slots of the array
        assert Moved(cats, id, direction) == Reordered(Renumbered(newCategories[..]));
      }
      ghost var expected := Moved(cats, id, direction);
      RenumberInPlace(newCategories);
      assert expected == Reordered(newCategories[..]);
      categories := newCategories[..];
      result := Reordered(categories);
    }

    /** `startEditCategory`: loads the first row with that id into the form and selects it;
        an unknown id changes nothing. */
    method StartEditCategory(id: string)
      modifies this
      ensures categories == old(categories)
      ensures var i := FindIndex(old(categories), id);
        if 0 <= i then
          && selectedCategoryId == Some(id) && newCategoryName == old(categories)[i].name
          && newCategoryDescription == old(categories)[i].description
          && isNewCategoryVisible == old(categories)[i].isVisible
        else unchanged(this)
    {
      var i := FindIndex(categories, id);
      if 0 <= i {
        var category := categories[i];
        selectedCategoryId := Some(id);
        newCategoryName := category.name;
        newCategoryDescription := category.description;
        isNewCategoryVisible := category.isVisible;
      }
    }
  }
}
