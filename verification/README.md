# QCef context menu and browser-event contract, in Dafny

This project models the core of `src/widgets/qcef_browser_event_delegate.h`
from the QCef widgets library. The header defines what a host application
and the embedded Chromium/CEF browser agree on when a context menu opens:

- `QCefContextMenu` is the builder the host fills. It holds an ordered list of
  entries (`items_`), each an item `{id, label, enabled}` or a separator, and a
  map from item id to the callback to trigger (`callbacks_`). Its operations
  are `addItem`, `addSeparator`, `clear`, `items` and `callbacks`. User ids
  must lie between `MENU_ID_USER_FIRST` (26500) and `MENU_ID_USER_LAST` (28500).
- `QCefContextMenuParams` is the read-only snapshot of the node the menu was
  invoked on.
- Several enumerations form the header's binary contract:
  - `QCefWindowOpenDisposition` numbers dispositions 0..9, exactly as
    Chromium's window_open_disposition.h does.
  - The context-type, media-state and edit-state flags are single-bit masks
    meant to be OR-ed together.
  - The media type is an exclusive enumeration 0..5.

The header has declarations and doc comments but no function bodies. The
builder is therefore written from those declarations and comments. Each
point the header leaves open is a modelling choice, listed below.

## Layout

| file | module | models |
|---|---|---|
| `options.dfy` | `Options` | the optional result of converting a raw integer |
| `bit_mask.dfy` | `BitMask` | `1 << k`, bit tests and bitwise OR on non-negative integers |
| `window_open_disposition.dfy` | `WindowOpenDisposition` | `QCefWindowOpenDisposition` |
| `context_flags.dfy` | `ContextFlags` | `QCefContextMenuFlags` |
| `media_type.dfy` | `MediaType` | `QCefContextMenuMediaTypeFlags` |
| `media_flags.dfy` | `MediaFlags` | `QCefContextMenuMediaFlags` |
| `edit_flags.dfy` | `EditFlags` | `QCefContextMenuEditFlags` |
| `context_menu_params.dfy` | `ContextMenuParams` | `QCefContextMenuParams` |
| `context_menu.dfy` | `ContextMenu` | `QCefContextMenu` |

A flag mask is a `nat`.
- `BitMask.BitSet(m, k)` is `((m >> k) & 1) == 1`.
- `BitMask.Or` is `|`.
- A flag set is a Dafny `set` of the flag datatype.
- `Mask` converts a set to its mask and `FromMask` converts back.

Every flag value fits in ten bits, so the C++ `int` never overflows and no
wrap-around needs modelling.

The builder is an immutable `Menu` value. `AddItem`, `AddSeparator` and
`Clear` each return the next menu. `Items` and `Callbacks` only read it, so
they cannot change the menu. A `Call` datatype and `Run` replay a sequence of
builder calls, which lets the lemmas talk about whole call sequences.

Modelling choices where the header is silent or ambiguous:
- `MENU_ID_USER_LAST` is an allowed id. The header says user ids "should
  come between" the two constants (lines 194-196) and "shall be between"
  them (line 202), so both ends are admitted (`IsUserId`). "Between" can also
  be read as excluding one or both ends. The inclusive reading is the widest
  one, and the only one in which the header's own constant 28500 names a
  usable id.
- `clear()` empties the callback map as well as the items. The header says
  only "Clear all menu items" (line 211). It also says a callback "is
  triggered when this menu item is activated" (line 205). Once the items
  are gone, nothing can activate them, so the model drops their callbacks
  too.
- `addItem` requires only an id in the user range, not a fresh one. With a
  repeated id the model overwrites the map entry, as `QMap::insert` does, so
  the last callback registered for an id wins. This is stated, not hidden:
  the contract of `ContextMenu.AddItem` says the new callback is the one
  triggered for its id whether or not the id was already present, and
  `ContextMenu.RunTriggersLastCallback` lifts this to whole call sequences.
  The header does not show `addItem`'s body, so this is a modelling choice.
- The callback is an opaque `CallbackToken`. An empty `std::function` is just
  another token.
- A separator carries no id, label or enabled flag. The C++ `MenuItem` for a
  separator leaves these fields unspecified.
- Converting an integer to an enumerator yields an `Option`: integers outside
  the declared range name no enumerator. The C++ `static_cast` does not check
  its argument.
- The edit-state flags are the eight bits the header declares, CAN_UNDO
  (`1 << 0`) through CAN_TRANSLATE (`1 << 7`).

## Model

| member | source | states |
|---|---|---|
| WindowOpenDisposition.ToInt | src/widgets/qcef_browser_event_delegate.h:20-31 | each disposition's Chromium value lies in 0..9 and equals its position in declaration order, so UNKNOWN=0, CURRENT_TAB=1, …, NEW_WINDOW=6, …, IGNORE_ACTION=9 |
| WindowOpenDisposition.FromInt | src/widgets/qcef_browser_event_delegate.h:17-31 | a raw value names a disposition exactly when it is in 0..9, and then the disposition named has that value |
| WindowOpenDisposition.FromIntToInt | src/widgets/qcef_browser_event_delegate.h:17-31 | every disposition converts to its integer and back unchanged |
| WindowOpenDisposition.ToIntInjective | src/widgets/qcef_browser_event_delegate.h:17-31 | two dispositions have the same value if and only if they are the same disposition |
| WindowOpenDisposition.DeclaredIsComplete | src/widgets/qcef_browser_event_delegate.h:20-31 | every value in 0..9 is some disposition's value, so the numbering is a bijection onto 0..9 |
| ContextFlags.ValueIsSingleBit | src/widgets/qcef_browser_event_delegate.h:36-48 | each QCM_FLAG_* constant equals `1 << k` for its bit position and has exactly that one bit set |
| ContextFlags.ValuesDisjoint | src/widgets/qcef_browser_event_delegate.h:38-48 | two different context flags share no bit |
| ContextFlags.HasMask | src/widgets/qcef_browser_event_delegate.h:34-49 | OR-ing a set of flags and testing any flag's bit says exactly whether that flag was in the set |
| ContextFlags.MaskOfNoneAndSingle | src/widgets/qcef_browser_event_delegate.h:36-48 | the empty set gives QCM_FLAG_NONE = 0, and a single flag gives its own constant |
| ContextFlags.MaskInsert | src/widgets/qcef_browser_event_delegate.h:34-49 | OR-ing one more flag's constant into a mask, in either order, gives the mask of the set with that flag added, so QCM_FLAG_PAGE OR-ed with QCM_FLAG_LINK is the mask of {Page, Link} |
| ContextFlags.MaskBound | src/widgets/qcef_browser_event_delegate.h:38-48 | every mask built from context flags is below 64 |
| ContextFlags.FromMaskMask | src/widgets/qcef_browser_event_delegate.h:34-49 | converting a flag set to its mask and back returns the same set |
| ContextFlags.MaskFromMask | src/widgets/qcef_browser_event_delegate.h:34-49 | every mask below 64 converts to a flag set and back to the same mask |
| MediaType.ToInt | src/widgets/qcef_browser_event_delegate.h:53-66 | each media type's value lies in 0..5 and equals its position in declaration order |
| MediaType.FromInt | src/widgets/qcef_browser_event_delegate.h:53-66 | a raw value names a media type exactly when it is in 0..5, and then the media type named has that value |
| MediaType.FromIntToInt | src/widgets/qcef_browser_event_delegate.h:53-66 | every media type converts to its integer and back unchanged |
| MediaType.ToIntInjective | src/widgets/qcef_browser_event_delegate.h:53-66 | one value names at most one media type, so exactly one media type applies |
| MediaType.NotCombinable | src/widgets/qcef_browser_event_delegate.h:52-66 | media types are not flags: IMAGE OR-ed with VIDEO gives AUDIO's value |
| MediaFlags.ValueIsSingleBit | src/widgets/qcef_browser_event_delegate.h:70-80 | each QCM_MEDIAFLAG_* constant equals `1 << k` for its bit position and has exactly that one bit set |
| MediaFlags.ValuesDisjoint | src/widgets/qcef_browser_event_delegate.h:71-80 | two different media-state flags share no bit |
| MediaFlags.HasMask | src/widgets/qcef_browser_event_delegate.h:69-81 | OR-ing a set of media-state flags and testing any flag's bit says exactly whether that flag was in the set |
| MediaFlags.MaskOfNoneAndSingle | src/widgets/qcef_browser_event_delegate.h:70-80 | the empty set gives QCM_MEDIAFLAG_NONE = 0, and a single flag gives its own constant |
| MediaFlags.MaskInsert | src/widgets/qcef_browser_event_delegate.h:69-81 | OR-ing one more media-state constant into a mask, in either order, gives the mask of the set with that flag added |
| MediaFlags.MaskBound | src/widgets/qcef_browser_event_delegate.h:71-80 | every media-state mask is below 1024 |
| MediaFlags.FromMaskMask | src/widgets/qcef_browser_event_delegate.h:69-81 | converting a media-state flag set to its mask and back returns the same set |
| MediaFlags.MaskFromMask | src/widgets/qcef_browser_event_delegate.h:69-81 | every mask below 1024 converts to a media-state flag set and back to the same mask |
| EditFlags.ValueIsSingleBit | src/widgets/qcef_browser_event_delegate.h:85-93 | each QCM_EDITFLAG_* constant equals `1 << k` for its bit position and has exactly that one bit set |
| EditFlags.ValuesDisjoint | src/widgets/qcef_browser_event_delegate.h:86-93 | two different edit-state flags share no bit |
| EditFlags.HasMask | src/widgets/qcef_browser_event_delegate.h:84-94 | OR-ing a set of edit-state flags and testing any flag's bit says exactly whether that flag was in the set |
| EditFlags.MaskOfNoneAndSingle | src/widgets/qcef_browser_event_delegate.h:85-93 | the empty set gives QCM_EDITFLAG_NONE = 0, and a single flag gives its own constant |
| EditFlags.MaskInsert | src/widgets/qcef_browser_event_delegate.h:84-94 | OR-ing one more edit-state constant into a mask, in either order, gives the mask of the set with that flag added |
| EditFlags.MaskBound | src/widgets/qcef_browser_event_delegate.h:86-93 | every edit-state mask is below 256 |
| EditFlags.FromMaskMask | src/widgets/qcef_browser_event_delegate.h:84-94 | converting an edit-state flag set to its mask and back returns the same set |
| EditFlags.MaskFromMask | src/widgets/qcef_browser_event_delegate.h:84-94 | every mask below 256 converts to an edit-state flag set and back to the same mask |
| ContextMenuParams.GetTypeFlags | src/widgets/qcef_browser_event_delegate.h:118-120 | the returned type mask is below 64, and testing its flags gives back exactly the snapshot's node types |
| ContextMenuParams.GetMediaType | src/widgets/qcef_browser_event_delegate.h:152-153 | the returned media type value lies in 0..5 and names exactly the snapshot's media type |
| ContextMenuParams.GetMediaStateFlags | src/widgets/qcef_browser_event_delegate.h:155-157 | the returned media-state mask is below 1024 and decodes to exactly the snapshot's media state |
| ContextMenuParams.GetEditStateFlags | src/widgets/qcef_browser_event_delegate.h:166-168 | the returned edit-state mask is below 256 and decodes to exactly the snapshot's edit state |
| ContextMenu.AddItem | src/widgets/qcef_browser_event_delegate.h:201-206 | with an id in the user range: adds exactly one item with the given id, label and enabled flag after the unchanged earlier entries; makes the callback the one triggered for that id, replacing any earlier callback for a repeated id; leaves every other id's callback alone; keeps a valid menu valid |
| ContextMenu.AddSeparator | src/widgets/qcef_browser_event_delegate.h:208-209 | adds exactly one separator after the unchanged earlier entries, leaves the callback map unchanged, and keeps a valid menu valid |
| ContextMenu.Clear | src/widgets/qcef_browser_event_delegate.h:211-212 | afterwards there are no items and no id triggers a callback, whatever the menu held before |
| ContextMenu.StepEffect | src/widgets/qcef_browser_event_delegate.h:201-209 | one `addItem` or `addSeparator` call appends its entry to the items and registers only the id of the item it adds |
| ContextMenu.RunInCallOrder | src/widgets/qcef_browser_event_delegate.h:214-219 | after a sequence of `addItem`/`addSeparator` calls, `items()` returns the earlier entries followed by the new ones in call order |
| ContextMenu.RunRegistersItemIds | src/widgets/qcef_browser_event_delegate.h:216-220 | after a sequence of `addItem`/`addSeparator` calls, the ids in `callbacks()` are the earlier ids plus exactly the ids of the added items |
| ContextMenu.RunTriggersLastCallback | src/widgets/qcef_browser_event_delegate.h:201-206 | after a sequence of `addItem`/`addSeparator` calls, activating an id triggers the callback of the last `addItem` with that id, and an id no call added keeps its earlier callback |
| ContextMenu.RunKeepsValid | src/widgets/qcef_browser_event_delegate.h:193-220 | any sequence of allowed builder calls keeps every item id in the user range and the callback ids equal to the item ids |
| ContextMenu.ClearForgetsHistory | src/widgets/qcef_browser_event_delegate.h:211-220 | whatever calls came before a `clear()`, the calls after it give the same menu as on a fresh one |
| ContextMenu.BuiltFromFresh | src/widgets/qcef_browser_event_delegate.h:178-220 | a fresh menu built without `clear()` lists exactly the added entries in call order, and has a callback for exactly their item ids |
| ContextMenu.CustomItemThenSeparator | src/widgets/qcef_browser_event_delegate.h:201-209 | adding item 26500 "Custom" (enabled) and then a separator lists exactly those two entries, and activating 26500 triggers the given callback |
| ContextMenu.UserIdRangeEnds | src/widgets/qcef_browser_event_delegate.h:193-202 | 26500 and 28500 are both user ids; 26499 and 28501 are not |

## Left out

- `QCefBrowserEventDelegate` is not modelled. It is a pure-virtual interface
  with no behaviour of its own, and its inputs are Qt types (`QUrl`,
  `QKeyEvent`). The meaning of its results is fixed by the host:
  - `onBeforeBrowse` returns true to cancel a navigation and false to allow it.
  - `onBeforePopup` returns true to let the default popup window open.
  - `onBeforeContextMenu` and `onPreKeyEvent` return nothing.
- The string and coordinate accessors of `QCefContextMenuParams`
  (`getXCoord`, `getLinkUrl`, `getSelectionText`, …) are not modelled as
  functions. Each is a plain field of the `Params` record, so there is
  nothing to prove about it.
- The default constructor of `QCefContextMenuParams` and its filling by
  `QCefClientHandlerDelegate` are not modelled. `QCefClientHandlerDelegate`
  is not part of this model.
- Callbacks are never invoked. A callback runs host code on a `QCefWebPage`,
  which is outside the model. The model records only which callback an id
  triggers.
- What the native menu does with a repeated or out-of-range id is not
  modelled. The header leaves it to the underlying CEF menu.
- Qt containers (`QVector`, `QMap`, `QString`), `QMenu` rendering, the export
  macro and the CEF/Chromium integration are foreign libraries. They are not
  modelled.
