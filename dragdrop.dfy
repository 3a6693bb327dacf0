/**
 * The drag-and-drop decisions of the tree widget. Each Qt handler becomes a
 * function of the decoded payload, the tree item under the cursor, the
 * keyboard modifiers, the widget's overview flag and the experiment's items
 * (item name to item type). Drops return a `Reaction`: the operations on the
 * item tree and the main window in the order the handler performs them, and
 * what became of the event.
 */
module DragDrop {
  import opened Wrappers
  import opened PyStr
  import opened Ancestry

  const ItemNew := "item-new"
  const ItemExisting := "item-existing"
  const UrlLocal := "url-local"

  /** The decoded fields of a drag payload that the handlers read. */
  datatype Payload = Payload(
    kind: string,      // `type`
    itemName: string,  // `item-name`
    itemType: string,  // `item-type` (new items only)
    ancestry: string,  // `ancestry` of the dragged tree item
    script: string,    // `script` (new items only)
    url: string)       // `url` (local files only)

  /** A tree item's parent, seen from the child: its text and the child's position in it. */
  datatype ParentItem = ParentItem(text: string, childIndex: nat)

  /** A tree item under the cursor, as far as the handlers look at it. */
  datatype TreeItem = TreeItem(
    text: string,          // column-0 text
    name: string,          // the name reported by `ancestry()`
    ancestry: string,      // the ancestry reported by `ancestry()`
    droppable: bool,
    draggable: bool,
    parent: Option<ParentItem>)

  /** Item names of the experiment, mapped to their item types. */
  type Items = map<string, string>

  /** `droppable`: there is an item and it accepts drops. */
  predicate Droppable(t: Option<TreeItem>)
    ensures t.None? ==> !Droppable(t)
    ensures t.Some? ==> (Droppable(t) <==> t.value.droppable)
  {
    t.Some? && t.value.droppable
  }

  /** `draggable`: there is an item and it can be dragged. */
  predicate Draggable(t: Option<TreeItem>)
    ensures t.None? ==> !Draggable(t)
    ensures t.Some? ==> (Draggable(t) <==> t.value.draggable)
  {
    t.Some? && t.value.draggable
  }

  datatype Answer = Accept | Ignore

  /** What a mouse press starts: no drag, a drag of a payload kind, or an exception. */
  datatype Press = NoDrag | Drag(kind: string) | PressFailed(error: PyError)

  /**
   * The decision of `mousePressEvent`: only a press of the left button alone
   * on a draggable item starts a drag; with Ctrl and Shift held it offers a
   * copy (`item-new`, which looks the item up by name), otherwise a move.
   */
  function PressDecision(leftOnly: bool, target: Option<TreeItem>, ctrl: bool, shift: bool,
                         items: Items): (r: Press)
    ensures r == NoDrag <==> !leftOnly || !Draggable(target)
    ensures r.Drag? ==> Draggable(target) && (r.kind == ItemNew <==> ctrl && shift)
    ensures leftOnly && Draggable(target) && !(ctrl && shift) ==> r == Drag(ItemExisting)
    ensures leftOnly && Draggable(target) && ctrl && shift
        ==> (r.PressFailed? <==> target.value.name !in items)
    ensures r.PressFailed? ==> Draggable(target) && ctrl && shift && r.error == KeyError(target.value.name)
  {
    if !leftOnly || !Draggable(target) then NoDrag
    else if ctrl && shift then
      (if target.value.name in items then Drag(ItemNew) else PressFailed(KeyError(target.value.name)))
    else Drag(ItemExisting)
  }

  /** `dragEnterEvent`. */
  function DragEnter(kind: string): (r: Answer)
    ensures r == Accept <==> kind == ItemNew || kind == ItemExisting || kind == UrlLocal
  {
    if kind in [ItemNew, ItemExisting, UrlLocal] then Accept else Ignore
  }

  /** `dragMoveEvent`. */
  function DragMove(kind: string, target: Option<TreeItem>): (r: Answer)
    ensures r == Accept ==> DragEnter(kind) == Accept
    ensures Droppable(target) ==> (r == Accept <==> DragEnter(kind) == Accept)
    ensures !Droppable(target) ==> (r == Accept <==> kind == UrlLocal)
  {
    if kind == UrlLocal then Accept
    else if kind in [ItemNew, ItemExisting] then (if !Droppable(target) then Ignore else Accept)
    else Ignore
  }

  /**
   * Drag-enter accepts exactly the three payload kinds; drag-move accepts a
   * file always and an item only over a droppable target.
   */
  lemma DragAcceptance(kind: string, target: Option<TreeItem>)
    ensures DragEnter(kind) == Accept <==> kind == ItemNew || kind == ItemExisting || kind == UrlLocal
    ensures DragMove(kind, target) == Accept
        <==> kind == UrlLocal || ((kind == ItemNew || kind == ItemExisting) && Droppable(target))
    ensures DragMove(kind, target) == Accept ==> DragEnter(kind) == Accept
  {
  }

  /** Every drag the widget starts itself is accepted on entry, and while over a droppable item. */
  lemma OwnDragsAccepted(leftOnly: bool, source: Option<TreeItem>, ctrl: bool, shift: bool,
                         items: Items, target: Option<TreeItem>)
    requires PressDecision(leftOnly, source, ctrl, shift, items).Drag?
    ensures var kind := PressDecision(leftOnly, source, ctrl, shift, items).kind;
      DragEnter(kind) == Accept && (Droppable(target) <==> DragMove(kind, target) == Accept)
  {
  }

  /** Operations on the experiment's items, and the one on the main window. */
  datatype Effect =
    | RemoveChild(parent: string, child: string, index: nat)  // `remove_child_item`
    | CreateItem(itemType: string, name: string, script: string)  // `items.new`
    | AppendChild(target: string, child: string)              // `insert_child_item(name)`
    | InsertChild(parent: string, child: string, index: nat)  // `insert_child_item(name, index)`
    | OpenFile(path: string)                                  // `main_window.open_file`
  {
    /** Puts the dropped item into the tree. */
    predicate IsPlacement() {
      AppendChild? || InsertChild?
    }
  }

  /** What became of a drop event; `Unanswered` leaves it neither accepted nor ignored. */
  datatype Verdict = Accepted | Ignored | Unanswered | Raised(error: PyError)

  datatype Reaction = Reaction(effects: seq<Effect>, verdict: Verdict)

  /** A drop refused with nothing done. */
  const IgnoredDrop := Reaction([], Ignored)

  /** The item types that take a dropped item as a child in overview mode. */
  predicate IsContainer(itemType: string) {
    itemType == "loop" || itemType == "sequence"
  }

  /**
   * The experiment's items once the dropped item is at hand: `items.new`
   * registers a created item under `newName`, the name the experiment chose
   * for it; fetching an existing item changes nothing.
   */
  function ItemsAfterFetch(data: Payload, items: Items, newName: string): (known: Items)
    ensures data.kind == ItemNew ==> known.Keys == items.Keys + {newName}
    ensures data.kind != ItemNew ==> known == items
  {
    if data.kind == ItemNew then items[newName := data.itemType] else items
  }

  /** The name of the item a drop places: the created item's, or the dragged one's. */
  function PlacedName(data: Payload, newName: string): string {
    if data.kind == ItemNew then newName else data.itemName
  }

  /**
   * `drop_event_item_new`: create (for `item-new`, under the name `newName`
   * the experiment gives it) or fetch (for `item-existing`) the dragged item
   * and place it relative to the target. The target is looked up before the
   * item is created, the target's tree parent after.
   */
  function DropNew(data: Payload, target: Option<TreeItem>, overviewMode: bool, items: Items,
                   newName: string): (r: Reaction)
    ensures r.verdict == Ignored <==> !(data.kind in [ItemExisting, ItemNew] && Droppable(target))
    ensures r.verdict == Ignored ==> r.effects == []
    ensures r.verdict.Raised? ==> r.verdict.error.KeyError? && |r.effects| <= 1
    ensures forall k :: 0 <= k < |r.effects| ==> !r.effects[k].RemoveChild? && !r.effects[k].OpenFile?
    ensures forall k :: 0 <= k < |r.effects| - 1 ==> !r.effects[k].IsPlacement()
  {
    if data.kind !in [ItemExisting, ItemNew] then IgnoredDrop
    else if !Droppable(target) then IgnoredDrop
    else
      var t := target.value;
      if t.text !in items then Reaction([], Accepted)
      else if data.kind == ItemExisting && data.itemName !in items then
        Reaction([], Raised(KeyError(data.itemName)))
      else
        var created := if data.kind == ItemNew
          then [CreateItem(data.itemType, data.itemName, data.script)] else [];
        var child := PlacedName(data, newName);
        if overviewMode && IsContainer(items[t.text]) then
          Reaction(created + [AppendChild(t.text, child)], Accepted)
        else if t.parent.None? then
          Reaction(created + [AppendChild(t.text, child)], Accepted)
        else if t.parent.value.text !in ItemsAfterFetch(data, items, newName) then
          Reaction(created, Raised(KeyError(t.parent.value.text)))
        else
          Reaction(created + [InsertChild(t.parent.value.text, child, t.parent.value.childIndex)],
                   Accepted)
  }

  /** The three checks `drop_event_item_move` makes before it parses the ancestry. */
  predicate MoveRefused(data: Payload, target: Option<TreeItem>) {
    || data.kind != ItemExisting
    || !Droppable(target)
    || EndsWith(target.value.ancestry, data.ancestry)
  }

  /**
   * `drop_event_item_move`: unless a guard refuses the drop, remove the item
   * from its old parent (a move, not a Ctrl copy) and place it as a new drop
   * would.
   */
  function DropMove(data: Payload, target: Option<TreeItem>, ctrl: bool, overviewMode: bool,
                    items: Items): (r: Reaction)
    ensures MoveRefused(data, target) ==> r == Reaction([], Ignored)
    ensures r.verdict == Accepted ==> data.kind == ItemExisting && Droppable(target)
    ensures ctrl ==> forall k :: 0 <= k < |r.effects| ==> !r.effects[k].RemoveChild?
    ensures !MoveRefused(data, target) && ParentFromAncestry(data.ancestry).Err?
        ==> r == Reaction([], Raised(ParentFromAncestry(data.ancestry).error))
  {
    if data.kind != ItemExisting then IgnoredDrop
    else if !Droppable(target) then IgnoredDrop
    else if EndsWith(target.value.ancestry, data.ancestry) then IgnoredDrop
    else
      match ParentFromAncestry(data.ancestry)
      case Err(e) => Reaction([], Raised(e))
      case Ok(Rootless) => IgnoredDrop
      case Ok(Parent(parent, index)) =>
        var removal := if !ctrl && parent in items
          then [RemoveChild(parent, data.itemName, index)] else [];
        var placed := DropNew(data, target, overviewMode, items, data.itemName);
        Reaction(removal + placed.effects, placed.verdict)
  }

  /** `dropEvent`: dispatch on the payload kind. */
  function Drop(data: Payload, target: Option<TreeItem>, ctrl: bool, overviewMode: bool,
                items: Items, newName: string): (r: Reaction)
    ensures r.verdict == Accepted ==> DragMove(data.kind, target) == Accept
    ensures OpenFile(data.url) in r.effects <==> data.kind == UrlLocal
    ensures DragEnter(data.kind) == Ignore ==> r == Reaction([], Ignored)
    ensures data.kind == ItemNew ==> r == DropNew(data, target, overviewMode, items, newName)
    ensures data.kind == ItemExisting ==> r == DropMove(data, target, ctrl, overviewMode, items)
    ensures data.kind == UrlLocal ==> r == Reaction([OpenFile(data.url)], Unanswered)
  {
    if data.kind == ItemNew then DropNew(data, target, overviewMode, items, newName)
    else if data.kind == ItemExisting then DropMove(data, target, ctrl, overviewMode, items)
    else if data.kind == UrlLocal then Reaction([OpenFile(data.url)], Unanswered)
    else IgnoredDrop
  }

  /**
   * A move is ignored with nothing removed or inserted exactly when the
   * payload is not an existing item, the target is not droppable, the
   * target's ancestry ends with the dragged one, or the dragged ancestry has
   * no parent; a malformed ancestry is only parsed once the first three
   * checks have passed.
   */
  lemma MoveIgnoredExactly(data: Payload, target: Option<TreeItem>, ctrl: bool,
                           overviewMode: bool, items: Items)
    ensures DropMove(data, target, ctrl, overviewMode, items) == Reaction([], Ignored)
        <==> MoveRefused(data, target) || ParentFromAncestry(data.ancestry) == Ok(Rootless)
    ensures DropMove(data, target, ctrl, overviewMode, items).verdict.Raised?
        ==> !MoveRefused(data, target)
  {
  }

  /** Joining two non-empty paths puts a separator between their encodings. */
  lemma {:induction false} JoinAppend(a: seq<string>, b: seq<string>, sep: char)
    requires |a| >= 1 && |b| >= 1
    ensures Join(a + b, sep) == Join(a, sep) + [sep] + Join(b, sep)
  {
    if |a| == 1 {
      assert (a + b)[1..] == b;
    } else {
      assert (a + b)[1..] == a[1..] + b;
      JoinAppend(a[1..], b, sep);
    }
  }

  lemma EncodeAppend(below: seq<Segment>, path: seq<Segment>)
    requires |below| >= 1 && |path| >= 1
    ensures Encode(below + path) == Encode(below) + "." + Encode(path)
  {
    var f := (s: seq<Segment>) => seq(|s|, i requires 0 <= i < |s| => SegmentText(s[i]));
    assert f(below + path) == f(below) + f(path);
    JoinAppend(f(below), f(path), '.');
  }

  /**
   * The recursion guard: dropping an item onto itself, or onto any item
   * below it (whose ancestry is the dragged one with more segments in
   * front), is ignored with nothing removed or inserted.
   */
  lemma DropOntoOwnSubtreeIgnored(data: Payload, target: Option<TreeItem>, ctrl: bool,
                                  overviewMode: bool, items: Items,
                                  below: seq<Segment>, path: seq<Segment>)
    requires target.Some? && |path| >= 1
    requires data.ancestry == Encode(path)
    requires target.value.ancestry == Encode(below + path)
    ensures DropMove(data, target, ctrl, overviewMode, items) == Reaction([], Ignored)
  {
    var prefix: string := [];
    if below == [] {
      assert below + path == path;
    } else {
      EncodeAppend(below, path);
      prefix := Encode(below) + ".";
    }
    assert target.value.ancestry == prefix + data.ancestry;
    EndsWithConcat(target.value.ancestry, data.ancestry);
  }

  /**
   * A move that passes the guards removes the item from its old parent, at
   * the parsed index, exactly when Ctrl is not held and that parent is a
   * known item; it then does what a new drop of the same payload does.
   */
  lemma MoveRemovesThenPlaces(data: Payload, target: Option<TreeItem>, ctrl: bool,
                              overviewMode: bool, items: Items, parent: string, index: nat)
    requires !MoveRefused(data, target)
    requires ParentFromAncestry(data.ancestry) == Ok(Parent(parent, index))
    ensures var r := DropMove(data, target, ctrl, overviewMode, items);
      var placed := DropNew(data, target, overviewMode, items, data.itemName);
      var removes := !ctrl && parent in items;
      && r.verdict == placed.verdict
      && (removes ==> r.effects == [RemoveChild(parent, data.itemName, index)] + placed.effects)
      && (!removes ==> r.effects == placed.effects)
      && ((exists k :: 0 <= k < |r.effects| && r.effects[k].RemoveChild?) <==> removes)
  {
    var r := DropMove(data, target, ctrl, overviewMode, items);
    if !ctrl && parent in items {
      assert r.effects[0].RemoveChild?;
    }
  }

  /**
   * Where an accepted drop puts the item: onto a loop or sequence target in
   * overview mode, or onto a top-level target, the item is appended to the
   * target; otherwise it is inserted into the target's tree parent at the
   * target's own position. A new item is created first; an existing one is
   * not. The tree parent is looked up once the new item exists, so it may be
   * the item just created.
   */
  lemma PlacementRule(data: Payload, target: Option<TreeItem>, overviewMode: bool, items: Items,
                      newName: string)
    requires data.kind == ItemNew || data.kind == ItemExisting
    requires Droppable(target) && target.value.text in items
    requires data.kind == ItemExisting ==> data.itemName in items
    ensures var r := DropNew(data, target, overviewMode, items, newName);
      var t := target.value;
      var created := if data.kind == ItemNew
        then [CreateItem(data.itemType, data.itemName, data.script)] else [];
      var child := if data.kind == ItemNew then newName else data.itemName;
      && (overviewMode && IsContainer(items[t.text]) ==>
            r == Reaction(created + [AppendChild(t.text, child)], Accepted))
      && (!(overviewMode && IsContainer(items[t.text])) && t.parent.None? ==>
            r == Reaction(created + [AppendChild(t.text, child)], Accepted))
      && (!(overviewMode && IsContainer(items[t.text])) && t.parent.Some? ==>
            var p := t.parent.value;
            r == if p.text in items || (data.kind == ItemNew && p.text == newName)
                 then Reaction(created + [InsertChild(p.text, child, p.childIndex)], Accepted)
                 else Reaction(created, Raised(KeyError(p.text))))
  {
  }

  /**
   * A drop onto an item the experiment does not know is still accepted, but
   * nothing is created or placed; an existing item the experiment does not
   * know raises `KeyError` before anything is placed.
   */
  lemma UnknownNames(data: Payload, target: Option<TreeItem>, overviewMode: bool, items: Items,
                     newName: string)
    requires data.kind == ItemNew || data.kind == ItemExisting
    requires Droppable(target)
    ensures target.value.text !in items
        ==> DropNew(data, target, overviewMode, items, newName) == Reaction([], Accepted)
    ensures target.value.text in items && data.kind == ItemExisting && data.itemName !in items
        ==> (DropNew(data, target, overviewMode, items, newName)
             == Reaction([], Raised(KeyError(data.itemName))))
  {
  }

  /**
   * A move onto a tree item the experiment does not know still removes the
   * dragged item from its old parent, and the drop is accepted, but the item
   * is placed nowhere.
   */
  lemma MoveOntoUnknownTarget(data: Payload, target: Option<TreeItem>, overviewMode: bool,
                              items: Items, parent: string, index: nat)
    requires !MoveRefused(data, target)
    requires ParentFromAncestry(data.ancestry) == Ok(Parent(parent, index))
    requires parent in items && target.value.text !in items
    ensures DropMove(data, target, false, overviewMode, items)
         == Reaction([RemoveChild(parent, data.itemName, index)], Accepted)
  {
  }

  /** An accepted item drop places the item exactly once, as its last operation. */
  lemma AcceptedDropPlacesOnce(data: Payload, target: Option<TreeItem>, ctrl: bool,
                               overviewMode: bool, items: Items, newName: string)
    requires data.kind == ItemNew || data.kind == ItemExisting
    requires Droppable(target) && target.value.text in items
    requires Drop(data, target, ctrl, overviewMode, items, newName).verdict == Accepted
    ensures var e := Drop(data, target, ctrl, overviewMode, items, newName).effects;
      |e| >= 1 && e[|e| - 1].IsPlacement()
      && forall k :: 0 <= k < |e| - 1 ==> !e[k].IsPlacement()
  {
  }
}
