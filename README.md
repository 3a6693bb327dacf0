# OpenSesame tree overview: a verified model of its decision logic

OpenSesame's `tree_overview` is the Qt tree widget that shows an experiment's
items (sequences, loops, leaf items) in the overview area and inside sequence
views. Behind its event handlers sit a few pieces of logic that do not depend
on the toolkit. This project models them in Dafny and proves what they
promise:

- **Ancestry parsing** (`parent_from_ancestry`). A tree item's ancestry is a
  `.`-separated path of `name:index` segments, the item first and the root
  last. Parsing gives the parent's name and the item's index in that parent.
  A one-segment path gives `Rootless` (Python's `(None, None)`). A malformed
  first segment gives the exception Python raises. Module `Ancestry` holds
  the parser. Module `PyStr` holds the Python string builtins it relies on:
  `str.split`, `sep.join`, `str.endswith` and `int()`.
- **Descendant collection** (`recursive_children`). This is a pre-order walk
  over a `Node(name, children)` tree, in module `TreeWalk`. The recursive
  function `RecursiveChildren` is the specification. `CollectChildren` is the
  source's loop over the children, proved equal to it.
- **Drag and drop** (`droppable`, `draggable`, `mousePressEvent`'s choice of
  payload, `dragEnterEvent`, `dragMoveEvent`, `dropEvent`,
  `drop_event_item_move`, `drop_event_item_new`), in module `DragDrop`. Each
  handler is a pure function of its inputs:
  - the decoded payload;
  - the tree item under the cursor, which may be absent;
  - the Ctrl/Shift modifiers;
  - the widget's overview flag;
  - the experiment's items, as a map from name to item type;
  - for a drop that creates an item, the name the experiment gives it.

  A drop returns a `Reaction`. It lists the operations on the item tree and
  the main window in the order the handler performs them: `RemoveChild`, `CreateItem`,
  `AppendChild`, `InsertChild` and `OpenFile`. It also says what became of
  the event: `Accepted`, `Ignored`, `Unanswered`, or `Raised` with the Python
  exception that escaped the handler.

Exceptions are modelled as values (`PyError`: `IndexError`, `ValueError`,
`KeyError`), not as preconditions. Parsing `"a.b"` yields `IndexError`.
A move that passes the drop checks, onto a target the experiment knows, yields
`KeyError` when the experiment does not know the dragged item's name.

The code (`tree_overview.py:160-161`) reads the parent name before the first
`:` of the second segment. It reads the index after the first `:` of the
first segment. So segments are `name:index`. More precisely, the index is
the text between the first and the second `:`, because `split(':')[1]` is
taken. `Ancestry.ParseFields` states this.

## Model

| member | source | states |
|---|---|---|
| `PyStr.Split` | libqtopensesame/widgets/tree_overview.py:157-161 | `str.split` yields one piece more than there are separators. No piece holds the separator. Every character of a piece comes from the input. |
| `PyStr.JoinSplit` | libqtopensesame/widgets/tree_overview.py:157 | Joining the pieces of a split with the separator gives back the original text. |
| `PyStr.SplitJoin` | libqtopensesame/widgets/tree_overview.py:157 | Splitting a join of separator-free pieces gives back exactly those pieces. |
| `PyStr.SplitAt` | libqtopensesame/widgets/tree_overview.py:160-161 | If text `a` has no separator and `t` is empty or starts with one, `a` is the first piece of `a + t` and the rest are the pieces of `t` after its separator. |
| `PyStr.SplitFirstTwo` | libqtopensesame/widgets/tree_overview.py:157-161 | The first two pieces of `a + sep + b + t` are `a` and `b`, whatever follows `t`'s leading separator. |
| `PyStr.EndsWith` | libqtopensesame/widgets/tree_overview.py:224 | `str.endswith`: a match implies the suffix is no longer than the text. Every text ends with the empty string and with itself. |
| `PyStr.EndsWithConcat` | libqtopensesame/widgets/tree_overview.py:224 | `s.endswith(x)` holds exactly when `s` is some text followed by `x`. |
| `PyStr.ParseInt` | libqtopensesame/widgets/tree_overview.py:161 | `int()` of the index field either gives a non-negative number or raises `ValueError`. |
| `PyStr.ParseDecimalString` | libqtopensesame/widgets/tree_overview.py:161 | Reading back the decimal spelling of `n` gives `n`. |
| `PyStr.DecimalStringOfParse` | libqtopensesame/widgets/tree_overview.py:161 | Reading a decimal without leading zeros and spelling the value again gives the same text. |
| `Ancestry.ParentFromAncestry` | libqtopensesame/widgets/tree_overview.py:140-162 | The result is `(None, None)` exactly when the ancestry has no `.`. The only exceptions are `IndexError` and `ValueError`. A parsed parent name holds neither `.` nor `:`. |
| `Ancestry.ParseFields` | libqtopensesame/widgets/tree_overview.py:157-162 | For `name:field[:more].parent[:tail][.rest]`, the result is `(parent, int(field))` when `field` is decimal and `ValueError` otherwise. Segments after the second are ignored. |
| `Ancestry.MissingColon` | libqtopensesame/widgets/tree_overview.py:161 | In a multi-segment ancestry, a first segment without `:` raises `IndexError`. |
| `Ancestry.TrailingSegmentsIgnored` | libqtopensesame/widgets/tree_overview.py:157-162 | Appending further segments after the second one does not change the result, whether success or error. |
| `Ancestry.ParseEncoded` | libqtopensesame/widgets/tree_overview.py:140-162 | Round trip: for a path of `name:index` segments with plain names, a one-segment path parses to `Rootless`. A longer path parses to (second name, first index). |
| `TreeWalk.RecursiveChildren` | libqtopensesame/widgets/tree_overview.py:410-415 | `recursive_children` yields one name per descendant: the tree's size minus the root, whose own name is not emitted. |
| `TreeWalk.DescendantCount` | libqtopensesame/widgets/tree_overview.py:401-415 | The walk yields one name per descendant. It yields `[]` exactly for a leaf. |
| `TreeWalk.WalkLayout` | libqtopensesame/widgets/tree_overview.py:410-415 | After the loop has visited children `0..i-1`, child `i`'s name comes next. The names of that child's own descendants follow it directly. |
| `TreeWalk.PreorderLayout` | libqtopensesame/widgets/tree_overview.py:410-415 | Pre-order: children appear in index order. Child `i`'s name sits at the combined size of the earlier children's subtrees, and its descendants' names immediately follow. |
| `TreeWalk.DescendantsListed` | libqtopensesame/widgets/tree_overview.py:401-415 | Every node reached by a non-empty path of child indices has its name in the result. |
| `TreeWalk.ListedAreDescendants` | libqtopensesame/widgets/tree_overview.py:401-415 | Every name in the result belongs to a node reached by a non-empty path of child indices. |
| `TreeWalk.CollectChildren` | libqtopensesame/widgets/tree_overview.py:410-415 | The source's loop collects each child's name and then its descendants. It returns the pre-order list `RecursiveChildren` specifies. |
| `DragDrop.Droppable` | libqtopensesame/widgets/tree_overview.py:180 | A missing tree item is never droppable. A present one is droppable exactly when it says it accepts drops. |
| `DragDrop.Draggable` | libqtopensesame/widgets/tree_overview.py:198 | A missing tree item is never draggable. A present one is draggable exactly when it says it can be dragged. |
| `DragDrop.DragEnter` | libqtopensesame/widgets/tree_overview.py:335-340 | Drag-enter accepts exactly the payload kinds `item-new`, `item-existing` and `url-local`. |
| `DragDrop.DragMove` | libqtopensesame/widgets/tree_overview.py:355-364 | Whatever drag-move accepts, drag-enter accepts too. Over a droppable target, drag-move agrees with drag-enter. Elsewhere it accepts only `url-local`. |
| `DragDrop.PressDecision` | libqtopensesame/widgets/tree_overview.py:109-137 | No drag starts exactly when the press is not the left button alone, or the item is missing or not draggable. Otherwise, without both Ctrl and Shift, it is an `item-existing` move. With both held it is an `item-new` copy, which raises `KeyError` exactly when the experiment does not know the item. |
| `DragDrop.DragAcceptance` | libqtopensesame/widgets/tree_overview.py:322-364 | Drag-enter accepts exactly `item-new`, `item-existing` and `url-local`. Drag-move accepts `url-local` always, and the two item kinds only over a non-null droppable target. Whatever drag-move accepts, drag-enter accepts too. |
| `DragDrop.OwnDragsAccepted` | libqtopensesame/widgets/tree_overview.py:117-137 | Every drag the widget starts is accepted on entry. While it moves, it is accepted exactly over droppable items. |
| `DragDrop.DropNew` | libqtopensesame/widgets/tree_overview.py:242-298 | A new-item drop is ignored, with nothing done, exactly when the payload is not an item or the target is not droppable. The only exceptions are `KeyError`s. It never removes anything. At most its last operation places the item. |
| `DragDrop.ItemsAfterFetch` | libqtopensesame/widgets/tree_overview.py:274-278 | Creating an item adds exactly its name to the experiment's items. Fetching an existing item leaves them unchanged. |
| `DragDrop.DropMove` | libqtopensesame/widgets/tree_overview.py:200-240 | A refused move does nothing and is ignored. An accepted move had an `item-existing` payload over a droppable target. With Ctrl held, nothing is removed. When the checks pass but the dragged ancestry does not parse, its `IndexError` or `ValueError` escapes with nothing removed or placed. |
| `DragDrop.Drop` | libqtopensesame/widgets/tree_overview.py:300-320 | `item-new` is handled as a new drop and `item-existing` as a move. `url-local` opens the file and leaves the event unanswered. A payload that drag-enter refuses is ignored with nothing done. An accepted drop was also accepted by drag-move. A file is opened exactly for `url-local`. |
| `DragDrop.MoveIgnoredExactly` | libqtopensesame/widgets/tree_overview.py:215-232 | A move is ignored with nothing removed or inserted exactly when one of these holds: not `item-existing`, target not droppable, target ancestry ends with the dragged one, or no parent. A parse error can only come after the first three checks pass. |
| `DragDrop.DropOntoOwnSubtreeIgnored` | libqtopensesame/widgets/tree_overview.py:224-227 | Dropping an item onto itself, or onto any item whose ancestry extends the dragged one, is ignored. |
| `DragDrop.MoveRemovesThenPlaces` | libqtopensesame/widgets/tree_overview.py:233-240 | A move that passes the checks removes the item from its old parent at the parsed index exactly when Ctrl is up and the parent is known. It then does what a new drop of the same payload does. |
| `DragDrop.PlacementRule` | libqtopensesame/widgets/tree_overview.py:274-296 | In overview mode, a loop or sequence target gets the item appended. So does a top-level target. Otherwise the item is inserted into the target's tree parent at the target's index, or `KeyError` is raised if that parent is unknown. A new item is created first. The tree parent is looked up after creation, so it may be the item just created. The item placed is the created one, under its new name, or else the dragged one. |
| `DragDrop.UnknownNames` | libqtopensesame/widgets/tree_overview.py:267-278 | A drop onto an unknown target is accepted with nothing done. An unknown existing item raises `KeyError` before any placement. |
| `DragDrop.MoveOntoUnknownTarget` | libqtopensesame/widgets/tree_overview.py:233-269 | A move onto a target the experiment does not know removes the item from its old parent and places it nowhere. The drop is still accepted. |
| `DragDrop.AcceptedDropPlacesOnce` | libqtopensesame/widgets/tree_overview.py:282-297 | An accepted item drop onto a known target places the item exactly once, as its last operation. |

## Left out

- `PyStr.ParseInt`: only a non-empty run of ASCII digits is an integer. Python's `int()` also accepts surrounding whitespace, a sign and non-ASCII digits; the model reports `ValueError` for those.
- Qt rendering and widget setup (the constructor, header labels, `setAcceptDrops`), `contextMenuEvent` and `keyPressEvent`: these are toolkit calls and UI navigation.
- `text_edited`: it delegates entirely to the experiment's `sanitize`, `clean_cond`, `rename` and `set_run_if`.
- `unused_items`: it only reaches into the main window's item tree and calls `recursive_children`, which is modelled.
- `drag_and_drop.send`, `receive` and `matches`, and `item.to_string()`: payload serialisation is foreign code. The model takes the decoded payload as input. It assumes `matches` tests the payload's `type` against the listed kinds. Payloads with missing keys are not modelled.
- Effects on external objects: `insert_child_item`, `remove_child_item` and `items.new` are recorded as operations, not executed. The name a newly created item receives is chosen by the experiment, so it is an input. `main_window.open_item`, `refresh` and `debug.msg` are left out.
- `mousePressEvent` forwards the press to the toolkit and opens the item in overview mode. The model covers only its choice of whether to drag and with which payload kind. A press that starts no drag is one outcome, whether the handler returns early or ignores the event.
- The tree item's own `droppable()`, `draggable()`, `ancestry()`, `parent()` and `indexOfChild()` are inputs, not computed. `libqtopensesame/widgets/tree_item_item.py` is not part of this model.
