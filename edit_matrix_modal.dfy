/** The matrix editor: the ordered source and destination selections a matrix
    is built from, the edits the user makes to them, and the payload sent on
    save. Selection lists are keyed by the line's `id`. */
module EditMatrixModal {
  import opened Wrappers
  import opened JsText
  import opened Forms

  /** A source or destination line; `ports` maps a role to `[port id, port label]`. */
  datatype LineItem = LineItem(id: int, name: string, description: Option<string>, ports: map<string, (int, string)>)

  datatype LineType = Src | Dst

  datatype Direction = Up | Down

  /** The editor's two ordered lists (`orderedSources`, `orderedDestinations`). */
  datatype Selection = Selection(sources: seq<LineItem>, destinations: seq<LineItem>)

  /** The body of `POST /matrix` and `PUT /matrix/{id}`. */
  datatype MatrixPayload = MatrixPayload(name: string, description: string, mode: int, srcs: seq<int>, dsts: seq<int>)

  predicate HasId(list: seq<LineItem>, id: int) {
    exists k :: 0 <= k < |list| && list[k].id == id
  }

  predicate DistinctIds(list: seq<LineItem>) {
    forall i, j :: 0 <= i < j < |list| ==> list[i].id != list[j].id
  }

  function ListOf(sel: Selection, t: LineType): seq<LineItem> {
    if t == Src then sel.sources else sel.destinations
  }

  /** `list.filter(x => x.id !== id)`. */
  function WithoutId(list: seq<LineItem>, id: int): (r: seq<LineItem>)
    ensures |r| <= |list|
  {
    if list == [] then []
    else if list[0].id == id then WithoutId(list[1..], id)
    else [list[0]] + WithoutId(list[1..], id)
  }

  /** The filter keeps exactly the entries with another id. */
  lemma {:induction false} WithoutIdMembers(list: seq<LineItem>, id: int)
    ensures forall x :: x in WithoutId(list, id) <==> x in list && x.id != id
  {
    if list != [] {
      WithoutIdMembers(list[1..], id);
      assert list == [list[0]] + list[1..];
    }
  }

  /** Filtering by id works piecewise, so it keeps the relative order of what it keeps. */
  lemma {:induction false} WithoutIdAppend(a: seq<LineItem>, b: seq<LineItem>, id: int)
    ensures WithoutId(a + b, id) == WithoutId(a, id) + WithoutId(b, id)
  {
    if a == [] {
      assert a + b == b;
    } else {
      assert (a + b)[0] == a[0] && (a + b)[1..] == a[1..] + b;
      WithoutIdAppend(a[1..], b, id);
    }
  }

  lemma {:induction false} WithoutAbsentId(list: seq<LineItem>, id: int)
    requires !HasId(list, id)
    ensures WithoutId(list, id) == list
  {
    if list != [] {
      forall k | 0 <= k < |list[1..]| ensures list[1..][k].id != id {
        assert list[1..][k] == list[k + 1];
      }
      WithoutAbsentId(list[1..], id);
    }
  }

  lemma {:induction false} WithoutIdKeepsDistinct(list: seq<LineItem>, id: int)
    requires DistinctIds(list)
    ensures DistinctIds(WithoutId(list, id))
  {
    if list != [] {
      WithoutIdKeepsDistinct(list[1..], id);
      var rest := WithoutId(list[1..], id);
      WithoutIdMembers(list[1..], id);
      if list[0].id != id {
        forall x | x in rest ensures x.id != list[0].id {
          var k :| 0 <= k < |list[1..]| && list[1..][k] == x;
          assert list[k + 1] == x;
        }
      }
    }
  }

  /** With distinct ids, no other position carries the id at position `k`. */
  lemma OthersLackId(list: seq<LineItem>, k: nat)
    requires DistinctIds(list) && k < |list|
    ensures !HasId(list[..k], list[k].id) && !HasId(list[k + 1..], list[k].id)
  {
    forall j | 0 <= j < k ensures list[..k][j].id != list[k].id {
      assert list[..k][j] == list[j];
    }
    var post := list[k + 1..];
    forall j | 0 <= j < |post| ensures post[j].id != list[k].id {
      assert post[j] == list[k + 1 + j];
    }
  }

  /** With distinct ids, removing a present id deletes exactly its one position. */
  lemma WithoutIdAt(list: seq<LineItem>, k: nat)
    requires DistinctIds(list) && k < |list|
    ensures WithoutId(list, list[k].id) == list[..k] + list[k + 1..]
  {
    var id := list[k].id;
    var pre, post := list[..k], list[k + 1..];
    assert list == pre + ([list[k]] + post);
    WithoutIdAppend(pre, [list[k]] + post, id);
    WithoutIdAppend([list[k]], post, id);
    OthersLackId(list, k);
    WithoutAbsentId(pre, id);
    WithoutAbsentId(post, id);
    assert [list[k]][1..] == [];
  }

  /** handleToggleSelection on one list: a selected id is removed (every entry
      carrying it), an unselected item is appended at the end. */
  function Toggle(list: seq<LineItem>, item: LineItem): (r: seq<LineItem>)
    ensures HasId(r, item.id) <==> !HasId(list, item.id)
    ensures HasId(list, item.id) ==> forall x :: x in r <==> x in list && x.id != item.id
    ensures !HasId(list, item.id) ==> |r| == |list| + 1 && r[..|list|] == list && r[|list|] == item
    ensures DistinctIds(list) ==> DistinctIds(r)
  {
    if HasId(list, item.id) then
      var r := WithoutId(list, item.id);
      WithoutIdMembers(list, item.id);
      assert forall k :: 0 <= k < |r| ==> r[k] in r;
      if DistinctIds(list) then WithoutIdKeepsDistinct(list, item.id); r else r
    else
      var r := list + [item];
      assert r[|list|].id == item.id;
      r
  }

  /** With distinct ids, toggling a selected item deletes exactly its position. */
  lemma ToggleSelectedDeletesAt(list: seq<LineItem>, item: LineItem, k: nat)
    requires DistinctIds(list) && k < |list| && list[k].id == item.id
    ensures Toggle(list, item) == list[..k] + list[k + 1..]
  {
    WithoutIdAt(list, k);
  }

  /** Toggling an unselected item twice gives back the original list. */
  lemma ToggleTwiceRestores(list: seq<LineItem>, item: LineItem)
    requires !HasId(list, item.id)
    ensures Toggle(Toggle(list, item), item) == list
  {
    WithoutIdAppend(list, [item], item.id);
    WithoutAbsentId(list, item.id);
  }

  /** handleToggleSelection: only the list named by `t` changes. */
  function ToggleSelection(sel: Selection, item: LineItem, t: LineType): (r: Selection)
    ensures ListOf(r, t) == Toggle(ListOf(sel, t), item)
    ensures t == Src ==> r.destinations == sel.destinations
    ensures t == Dst ==> r.sources == sel.sources
  {
    if t == Src then sel.(sources := Toggle(sel.sources, item))
    else sel.(destinations := Toggle(sel.destinations, item))
  }

  function Neighbour(index: int, direction: Direction): int {
    if direction == Up then index - 1 else index + 1
  }

  /** The guard of handleMoveItem: up from the top or down from the bottom does nothing. */
  predicate AtEnd(list: seq<LineItem>, index: int, direction: Direction) {
    (direction == Up && index == 0) || (direction == Down && index == |list| - 1)
  }

  /** The list after moving the entry at `index` one place: a swap with its
      neighbour, or no change at the ends. */
  function Moved(list: seq<LineItem>, index: int, direction: Direction): (r: seq<LineItem>)
    requires 0 <= index < |list|
    ensures |r| == |list| && multiset(r) == multiset(list)
    ensures AtEnd(list, index, direction) ==> r == list
    ensures !AtEnd(list, index, direction) ==>
      var j := Neighbour(index, direction);
      0 <= j < |list| && r[index] == list[j] && r[j] == list[index] &&
      forall k :: 0 <= k < |list| && k != index && k != j ==> r[k] == list[k]
  {
    if AtEnd(list, index, direction) then list
    else
      var j := Neighbour(index, direction);
      list[index := list[j]][j := list[index]]
  }

  lemma MovedKeepsDistinct(list: seq<LineItem>, index: int, direction: Direction)
    requires 0 <= index < |list| && DistinctIds(list)
    ensures DistinctIds(Moved(list, index, direction))
  {
    var r := Moved(list, index, direction);
    if !AtEnd(list, index, direction) {
      var j := Neighbour(index, direction);
      // position p of r holds the entry that was at Source(p)
      forall a, b | 0 <= a < b < |r| ensures r[a].id != r[b].id {
        var sa := if a == index then j else if a == j then index else a;
        var sb := if b == index then j else if b == j then index else b;
        assert r[a] == list[sa] && r[b] == list[sb] && sa != sb;
        if sa > sb { assert list[sb].id != list[sa].id; }
      }
    }
  }

  /** Moving an entry up and then moving it back down restores the list. */
  lemma MoveUpThenDown(list: seq<LineItem>, index: int)
    requires 0 < index < |list|
    ensures Moved(Moved(list, index, Up), index - 1, Down) == list
  {
    var r := Moved(Moved(list, index, Up), index - 1, Down);
    assert forall k :: 0 <= k < |list| ==> r[k] == list[k];
  }

  /** Moving an entry down and then moving it back up restores the list. */
  lemma MoveDownThenUp(list: seq<LineItem>, index: int)
    requires 0 <= index < |list| - 1
    ensures Moved(Moved(list, index, Down), index + 1, Up) == list
  {
    var r := Moved(Moved(list, index, Down), index + 1, Up);
    assert forall k :: 0 <= k < |list| ==> r[k] == list[k];
  }

  /** handleMoveItem on one list: copy it, take the entry out at `index`, and
      put it back in at the neighbouring index. */
  method MoveItem(list: seq<LineItem>, index: int, direction: Direction) returns (r: seq<LineItem>)
    requires 0 <= index < |list|
    ensures r == Moved(list, index, direction)
  {
    if AtEnd(list, index, direction) {
      return list;
    }
    var newList := list;
    var item := newList[index];
    newList := newList[..index] + newList[index + 1..];
    var newIndex := if direction == Up then index - 1 else index + 1;
    newList := newList[..newIndex] + [item] + newList[newIndex..];
    r := newList;
    assert forall k :: 0 <= k < |list| ==> r[k] == Moved(list, index, direction)[k];
  }

  /** handleMoveItem: only the list named by `t` changes. */
  method MoveSelected(sel: Selection, index: int, direction: Direction, t: LineType) returns (r: Selection)
    requires 0 <= index < |ListOf(sel, t)|
    ensures ListOf(r, t) == Moved(ListOf(sel, t), index, direction)
    ensures t == Src ==> r.destinations == sel.destinations
    ensures t == Dst ==> r.sources == sel.sources
  {
    var moved := MoveItem(ListOf(sel, t), index, direction);
    r := if t == Src then sel.(sources := moved) else sel.(destinations := moved);
  }

  /** Position of the first entry carrying `id`. */
  function IndexOf(list: seq<LineItem>, id: int): (k: nat)
    requires HasId(list, id)
    ensures k < |list| && list[k].id == id
    ensures forall j :: 0 <= j < k ==> list[j].id != id
  {
    if list[0].id == id then 0
    else
      assert HasId(list[1..], id) by {
        var k :| 0 <= k < |list| && list[k].id == id;
        assert list[1..][k - 1].id == id;
      }
      1 + IndexOf(list[1..], id)
  }

  /** `findInAll`: `list.find(item => item.id === id)`. */
  function FindInAll(list: seq<LineItem>, id: int): (r: Option<LineItem>)
    ensures r.None? <==> !HasId(list, id)
    ensures r.Some? ==> r.value == list[IndexOf(list, id)]
  {
    if list == [] then None
    else if list[0].id == id then Some(list[0])
    else
      var r := FindInAll(list[1..], id);
      assert HasId(list[1..], id) <==> HasId(list, id) by {
        if HasId(list, id) {
          var k :| 0 <= k < |list| && list[k].id == id;
          assert list[1..][k - 1].id == id;
        }
        if HasId(list[1..], id) {
          var k :| 0 <= k < |list[1..]| && list[1..][k].id == id;
          assert list[k + 1].id == id;
        }
      }
      r
  }

  /** `ids.map(id => findInAll(all, id)).filter(Boolean)`: the backend's ids
      turned back into full items, in the backend's order, dropping ids the
      full list does not know. */
  function Rebuild(ids: seq<int>, all: seq<LineItem>): (r: seq<LineItem>)
    ensures |r| <= |ids|
    ensures forall x :: x in r ==> x in all && x.id in ids
    ensures forall id :: id in ids ==> (HasId(r, id) <==> HasId(all, id))
  {
    if ids == [] then []
    else
      var rest := Rebuild(ids[1..], all);
      match FindInAll(all, ids[0])
      case None => rest
      case Some(x) =>
        assert forall id :: HasId(rest, id) ==> HasId([x] + rest, id) by {
          forall id | HasId(rest, id) ensures HasId([x] + rest, id) {
            var k :| 0 <= k < |rest| && rest[k].id == id;
            assert ([x] + rest)[k + 1].id == id;
          }
        }
        assert forall id :: HasId([x] + rest, id) && id != x.id ==> HasId(rest, id) by {
          forall id | HasId([x] + rest, id) && id != x.id ensures HasId(rest, id) {
            var k :| 0 <= k < |[x] + rest| && ([x] + rest)[k].id == id;
            assert rest[k - 1].id == id;
          }
        }
        assert ([x] + rest)[0].id == ids[0];
        [x] + rest
  }

  /** The items one backend id contributes: the first match, or nothing. */
  function Found(all: seq<LineItem>, id: int): seq<LineItem> {
    match FindInAll(all, id)
    case None => []
    case Some(x) => [x]
  }

  /** Unfolds `Rebuild` once; a rewriting step for `RebuildAppend`. */
  lemma RebuildCons(ids: seq<int>, all: seq<LineItem>)
    requires ids != []
    ensures Rebuild(ids, all) == Found(all, ids[0]) + Rebuild(ids[1..], all)
  {
  }

  /** Rebuilding works piecewise, so it keeps the backend's order. */
  lemma {:induction false} RebuildAppend(a: seq<int>, b: seq<int>, all: seq<LineItem>)
    ensures Rebuild(a + b, all) == Rebuild(a, all) + Rebuild(b, all)
  {
    if a == [] {
      assert a + b == b;
    } else {
      assert (a + b)[0] == a[0] && (a + b)[1..] == a[1..] + b;
      RebuildAppend(a[1..], b, all);
      RebuildCons(a + b, all);
      RebuildCons(a, all);
    }
  }

  /** When the full list knows every id, the rebuilt list has exactly those ids, in order. */
  lemma {:induction false} RebuildAllKnown(ids: seq<int>, all: seq<LineItem>)
    requires forall k :: 0 <= k < |ids| ==> HasId(all, ids[k])
    ensures |Rebuild(ids, all)| == |ids|
    ensures forall k :: 0 <= k < |ids| ==> Rebuild(ids, all)[k].id == ids[k]
  {
    if ids != [] {
      RebuildAllKnown(ids[1..], all);
      assert FindInAll(all, ids[0]).Some?;
    }
  }

  predicate NoDuplicates(s: seq<int>) {
    forall i, j :: 0 <= i < j < |s| ==> s[i] != s[j]
  }

  /** Distinct ids from the backend give a selection with distinct ids. */
  lemma {:induction false} RebuildDistinct(ids: seq<int>, all: seq<LineItem>)
    requires NoDuplicates(ids)
    ensures DistinctIds(Rebuild(ids, all))
  {
    if ids != [] {
      RebuildDistinct(ids[1..], all);
      var rest := Rebuild(ids[1..], all);
      forall x | x in rest ensures x.id != ids[0] {
        var k :| 0 <= k < |ids[1..]| && ids[1..][k] == x.id;
        assert ids[k + 1] == x.id;
      }
    }
  }

  /** `list.map(x => x.id)`. */
  function IdsOf(list: seq<LineItem>): (r: seq<int>)
    ensures |r| == |list|
    ensures forall k :: 0 <= k < |list| ==> r[k] == list[k].id
  {
    if list == [] then [] else [list[0].id] + IdsOf(list[1..])
  }

  /** `parseInt(mode, 10) || 0`: NaN (and zero) become 0. */
  function ModeNumber(mode: string): (r: int)
    ensures ParseInt(mode).None? ==> r == 0
    ensures forall m :: mode == DecimalString(m) ==> r == m
  {
    ParseEveryDecimalString();
    match ParseInt(mode)
    case None => 0
    case Some(v) => v
  }

  /** The editor's mode text is `String(matrix.mode)` or `'0'`; both read back
      as the number they came from. */
  lemma ModeRoundTrip(m: int)
    ensures ModeNumber(DecimalString(m)) == m
  {
    ParseDecimalString(m);
  }

  /** handleSubmit: a blank name is refused; otherwise the payload carries the
      name and description as typed, the mode as a number and the ids of both
      ordered lists, in order. */
  function Submit(name: string, description: string, mode: string, sel: Selection): (r: Submission<MatrixPayload>)
    ensures r.Rejected? <==> AllWhitespace(name)
    ensures r.Rejected? ==> r.message == "Matrix name cannot be empty."
    ensures r.Submitted? ==>
      && r.payload.name == name
      && r.payload.description == description
      && r.payload.mode == ModeNumber(mode)
      && |r.payload.srcs| == |sel.sources| && |r.payload.dsts| == |sel.destinations|
      && (forall k :: 0 <= k < |sel.sources| ==> r.payload.srcs[k] == sel.sources[k].id)
      && (forall k :: 0 <= k < |sel.destinations| ==> r.payload.dsts[k] == sel.destinations[k].id)
  {
    BlankIffAllWhitespace(name);
    if IsBlank(name) then Rejected("Matrix name cannot be empty.")
    else Submitted(MatrixPayload(name, description, ModeNumber(mode), IdsOf(sel.sources), IdsOf(sel.destinations)))
  }

  /** Opening an existing matrix and saving it unchanged sends back its mode
      and its source and destination order, provided the line lists know
      every id the matrix names. */
  lemma SaveUnchangedRoundTrip(name: string, description: string, m: int,
                               srcIds: seq<int>, dstIds: seq<int>,
                               allSources: seq<LineItem>, allDestinations: seq<LineItem>)
    requires !AllWhitespace(name)
    requires forall k :: 0 <= k < |srcIds| ==> HasId(allSources, srcIds[k])
    requires forall k :: 0 <= k < |dstIds| ==> HasId(allDestinations, dstIds[k])
    ensures Submit(name, description, DecimalString(m),
                   Selection(Rebuild(srcIds, allSources), Rebuild(dstIds, allDestinations)))
            == Submitted(MatrixPayload(name, description, m, srcIds, dstIds))
  {
    var srcs, dsts := Rebuild(srcIds, allSources), Rebuild(dstIds, allDestinations);
    RebuildAllKnown(srcIds, allSources);
    RebuildAllKnown(dstIds, allDestinations);
    assert IdsOf(srcs) == srcIds;
    assert IdsOf(dsts) == dstIds;
    ModeRoundTrip(m);
    BlankIffAllWhitespace(name);
  }
}
