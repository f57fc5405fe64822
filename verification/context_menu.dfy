/**
 `QCefContextMenu`: the builder the host fills while a context menu is being
 prepared. It keeps the ordered menu entries (`items_`) and, per item id,
 the callback to trigger when that item is activated (`callbacks_`).

 The builder is modelled as an immutable value with pure updates: each of
 `addItem`, `addSeparator` and `clear` maps a menu to the next menu, and
 `items()` / `callbacks()` are reads of its two parts.
 */
module ContextMenu {
  import opened Options

  /** An opaque stand-in for a host callback, `std::function<void(QCefWebPage*)>`.
      Invoking it runs host code, which is outside the model. */
  datatype CallbackToken = CallbackToken(handle: nat)

  /** `MenuItem`: an `Item` carries an id, a text and an enabled flag; a
      `Separator` carries nothing the menu reads. */
  datatype Entry = Item(id: int, text: string, enabled: bool) | Separator

  datatype Menu = Menu(entries: seq<Entry>, callbackMap: map<int, CallbackToken>)

  /** `MenuIdRange`: user ids lie between these two, clear of the ids the
      browser engine reserves for its own commands. */
  const MenuIdUserFirst: int := 26500
  const MenuIdUserLast: int := 28500

  /** Whether `id` lies in the user range; both ends are admitted. */
  predicate IsUserId(id: int)
  {
    MenuIdUserFirst <= id <= MenuIdUserLast
  }

  /** `QCefContextMenu()`: a fresh menu with no entries and no callbacks. */
  const Empty: Menu := Menu([], map[])

  /** The ids of the `Item` entries of `es`. */
  function ItemIds(es: seq<Entry>): set<int>
  {
    set i | 0 <= i < |es| && es[i].Item? :: es[i].id
  }

  /** A menu the builder can produce: every item id is a user id and the
      callback map has an entry for exactly the item ids. */
  predicate Valid(m: Menu)
  {
    && (forall i :: 0 <= i < |m.entries| && m.entries[i].Item? ==> IsUserId(m.entries[i].id))
    && m.callbackMap.Keys == ItemIds(m.entries)
  }

  /** `items()`. */
  function Items(m: Menu): seq<Entry>
  {
    m.entries
  }

  /** `callbacks()`. */
  function Callbacks(m: Menu): map<int, CallbackToken>
  {
    m.callbackMap
  }

  /** The callback the menu triggers when the item with `id` is activated. */
  function Triggered(m: Menu, id: int): Option<CallbackToken>
  {
    if id in m.callbackMap then Some(m.callbackMap[id]) else None
  }

  /** Appending one entry adds its id, if it is an item, to the item ids. */
  lemma ItemIdsAppend(es: seq<Entry>, e: Entry)
    ensures ItemIds(es + [e]) == ItemIds(es) + (if e.Item? then {e.id} else {})
  {
    var es' := es + [e];
    forall x
      ensures x in ItemIds(es') <==> x in ItemIds(es) + (if e.Item? then {e.id} else {})
    {
      if x in ItemIds(es') {
        var i :| 0 <= i < |es'| && es'[i].Item? && es'[i].id == x;
        if i < |es| {
          assert es[i] == es'[i];
        }
      }
      if x in ItemIds(es) {
        var i :| 0 <= i < |es| && es[i].Item? && es[i].id == x;
        assert es'[i] == es[i];
      }
      if e.Item? && x == e.id {
        assert es'[|es|] == e;
      }
    }
  }

  /** `addItem(id, text, enabled, callback)`: appends one item and makes
      `cb` the callback triggered for `id`. The header asks callers for an id
      in the user range. */
  function AddItem(m: Menu, id: int, text: string, enabled: bool, cb: CallbackToken): (r: Menu)
    requires IsUserId(id)
    ensures |Items(r)| == |Items(m)| + 1
    ensures Items(r)[..|Items(m)|] == Items(m)
    ensures Items(r)[|Items(m)|] == Item(id, text, enabled)
    ensures Triggered(r, id) == Some(cb)
    ensures forall k :: k != id ==> Triggered(r, k) == Triggered(m, k)
    ensures Callbacks(r).Keys == Callbacks(m).Keys + {id}
    ensures Valid(m) ==> Valid(r)
  {
    ItemIdsAppend(m.entries, Item(id, text, enabled));
    Menu(m.entries + [Item(id, text, enabled)], m.callbackMap[id := cb])
  }

  /** `addSeparator()`: appends one separator; it takes no id and leaves the
      callbacks alone. */
  function AddSeparator(m: Menu): (r: Menu)
    ensures |Items(r)| == |Items(m)| + 1
    ensures Items(r)[..|Items(m)|] == Items(m)
    ensures Items(r)[|Items(m)|] == Separator
    ensures Callbacks(r) == Callbacks(m)
    ensures Valid(m) ==> Valid(r)
  {
    ItemIdsAppend(m.entries, Separator);
    Menu(m.entries + [Separator], m.callbackMap)
  }

  /** `clear()`: removes every entry and, with them, every callback, so no
      id keeps a callback once its item is gone. */
  function Clear(m: Menu): (r: Menu)
    ensures |Items(r)| == 0
    ensures forall id :: Triggered(r, id) == None
    ensures Valid(r)
  {
    Empty
  }

  /** One call the host makes on the builder. */
  datatype Call =
    | AddItemCall(id: int, text: string, enabled: bool, cb: CallbackToken)
    | AddSeparatorCall
    | ClearCall

  /** The header's demand on a call: item ids in the user range. */
  predicate Allowed(c: Call)
  {
    c.AddItemCall? ==> IsUserId(c.id)
  }

  predicate AllAllowed(cs: seq<Call>)
  {
    forall i :: 0 <= i < |cs| ==> Allowed(cs[i])
  }

  function Apply(m: Menu, c: Call): Menu
    requires Allowed(c)
  {
    match c
    case AddItemCall(id, text, enabled, cb) => AddItem(m, id, text, enabled, cb)
    case AddSeparatorCall => AddSeparator(m)
    case ClearCall => Clear(m)
  }

  /** The menu after making the calls `cs`, in order, on `m`. */
  function Run(m: Menu, cs: seq<Call>): Menu
    requires AllAllowed(cs)
    decreases |cs|
  {
    if |cs| == 0 then m else Run(Apply(m, cs[0]), cs[1..])
  }

  /** The entries one call adds: one for `addItem` or `addSeparator`. */
  function Step(c: Call): seq<Entry>
  {
    match c
    case AddItemCall(id, text, enabled, _) => [Item(id, text, enabled)]
    case AddSeparatorCall => [Separator]
    case ClearCall => []
  }

  /** The entries a run of calls adds, in call order. */
  function Added(cs: seq<Call>): seq<Entry>
  {
    if |cs| == 0 then [] else Step(cs[0]) + Added(cs[1..])
  }

  predicate NoClear(cs: seq<Call>)
  {
    forall i :: 0 <= i < |cs| ==> !cs[i].ClearCall?
  }

  /** Running two batches of calls is running their concatenation. */
  lemma {:induction false} RunAppend(m: Menu, a: seq<Call>, b: seq<Call>)
    requires AllAllowed(a) && AllAllowed(b)
    ensures AllAllowed(a + b)
    ensures Run(m, a + b) == Run(Run(m, a), b)
    decreases |a|
  {
    assert AllAllowed(a + b) by {
      forall i | 0 <= i < |a + b|
        ensures Allowed((a + b)[i])
      {
        if i < |a| {
          assert (a + b)[i] == a[i];
        } else {
          assert (a + b)[i] == b[i - |a|];
        }
      }
    }
    if |a| > 0 {
      assert (a + b)[0] == a[0];
      assert (a + b)[1..] == a[1..] + b;
      RunAppend(Apply(m, a[0]), a[1..], b);
    } else {
      assert a + b == b;
    }
  }

  /** One call other than `clear()` appends its entries and registers the
      id of the item it adds, if any. */
  lemma StepEffect(m: Menu, c: Call)
    requires Allowed(c) && !c.ClearCall?
    ensures Items(Apply(m, c)) == Items(m) + Step(c)
    ensures Callbacks(Apply(m, c)).Keys == Callbacks(m).Keys + ItemIds(Step(c))
  {
    var e := Step(c)[0];
    assert Step(c) == [e];
    assert Items(Apply(m, c)) == Items(m) + [e];
    ItemIdsAppend([], e);
    assert [] + [e] == [e];
  }

  /** Dropping the first call keeps a run allowed and free of `clear()`. */
  lemma TailOfRun(cs: seq<Call>)
    requires |cs| > 0 && AllAllowed(cs) && NoClear(cs)
    ensures AllAllowed(cs[1..]) && NoClear(cs[1..])
    ensures Allowed(cs[0]) && !cs[0].ClearCall?
  {
    forall i | 0 <= i < |cs[1..]|
      ensures Allowed(cs[1..][i]) && !cs[1..][i].ClearCall?
    {
      assert cs[1..][i] == cs[i + 1];
    }
  }

  /** Without a `clear()`, `items()` lists the entries in call order after
      the earlier ones. */
  lemma {:induction false} RunInCallOrder(m: Menu, cs: seq<Call>)
    requires AllAllowed(cs) && NoClear(cs)
    ensures Items(Run(m, cs)) == Items(m) + Added(cs)
    decreases |cs|
  {
    if |cs| == 0 {
      assert Items(m) + [] == Items(m);
    } else {
      TailOfRun(cs);
      StepEffect(m, cs[0]);
      RunInCallOrder(Apply(m, cs[0]), cs[1..]);
      assert (Items(m) + Step(cs[0])) + Added(cs[1..]) == Items(m) + (Step(cs[0]) + Added(cs[1..]));
    }
  }

  /** Without a `clear()`, `callbacks()` gains exactly the ids of the added
      items. */
  lemma {:induction false} RunRegistersItemIds(m: Menu, cs: seq<Call>)
    requires AllAllowed(cs) && NoClear(cs)
    ensures Callbacks(Run(m, cs)).Keys == Callbacks(m).Keys + ItemIds(Added(cs))
    decreases |cs|
  {
    if |cs| == 0 {
      assert ItemIds([]) == {};
    } else {
      TailOfRun(cs);
      StepEffect(m, cs[0]);
      RunRegistersItemIds(Apply(m, cs[0]), cs[1..]);
      ItemIdsConcat(Step(cs[0]), Added(cs[1..]));
    }
  }

  /** The item ids of a concatenation are the ids of its two parts. */
  lemma ItemIdsConcat(a: seq<Entry>, b: seq<Entry>)
    ensures ItemIds(a + b) == ItemIds(a) + ItemIds(b)
  {
    forall x
      ensures x in ItemIds(a + b) <==> x in ItemIds(a) + ItemIds(b)
    {
      if x in ItemIds(a + b) {
        var i :| 0 <= i < |a + b| && (a + b)[i].Item? && (a + b)[i].id == x;
        if i < |a| {
          assert a[i] == (a + b)[i];
        } else {
          assert b[i - |a|] == (a + b)[i];
        }
      }
      if x in ItemIds(a) {
        var i :| 0 <= i < |a| && a[i].Item? && a[i].id == x;
        assert (a + b)[i] == a[i];
      }
      if x in ItemIds(b) {
        var i :| 0 <= i < |b| && b[i].Item? && b[i].id == x;
        assert (a + b)[|a| + i] == b[i];
      }
    }
  }

  /** Every sequence of allowed calls keeps a valid menu valid. */
  lemma {:induction false} RunKeepsValid(m: Menu, cs: seq<Call>)
    requires AllAllowed(cs) && Valid(m)
    ensures Valid(Run(m, cs))
    decreases |cs|
  {
    if |cs| > 0 {
      RunKeepsValid(Apply(m, cs[0]), cs[1..]);
    }
  }

  /** A `clear()` forgets everything before it: what follows behaves as on a
      fresh menu. */
  lemma ClearForgetsHistory(m: Menu, before: seq<Call>, after: seq<Call>)
    requires AllAllowed(before) && AllAllowed(after)
    ensures AllAllowed(before + [ClearCall] + after)
    ensures Run(m, before + [ClearCall] + after) == Run(Empty, after)
  {
    assert AllAllowed([ClearCall]);
    RunAppend(m, before, [ClearCall]);
    RunAppend(m, before + [ClearCall], after);
    assert Run(Run(m, before), [ClearCall]) == Empty;
  }

  /** The callback of the last `addItem` call in `cs` with id `x`, if any,
      found by scanning the calls from the end. */
  function LastCallback(cs: seq<Call>, x: int): Option<CallbackToken>
  {
    if |cs| == 0 then None
    else if cs[|cs| - 1].AddItemCall? && cs[|cs| - 1].id == x then Some(cs[|cs| - 1].cb)
    else LastCallback(cs[..|cs| - 1], x)
  }

  /** Dropping the last call keeps a run allowed and free of `clear()`. */
  lemma InitOfRun(cs: seq<Call>)
    requires |cs| > 0 && AllAllowed(cs) && NoClear(cs)
    ensures AllAllowed(cs[..|cs| - 1]) && NoClear(cs[..|cs| - 1])
    ensures AllAllowed([cs[|cs| - 1]]) && !cs[|cs| - 1].ClearCall?
    ensures cs == cs[..|cs| - 1] + [cs[|cs| - 1]]
  {
    assert forall i :: 0 <= i < |cs| - 1 ==> cs[..|cs| - 1][i] == cs[i];
  }

  /** Without a `clear()`, activating id `x` triggers the callback of the
      last `addItem` with id `x`; an id no call added keeps the callback it
      had before. */
  lemma {:induction false} RunTriggersLastCallback(m: Menu, cs: seq<Call>, x: int)
    requires AllAllowed(cs) && NoClear(cs)
    ensures Triggered(Run(m, cs), x)
         == if LastCallback(cs, x).Some? then LastCallback(cs, x) else Triggered(m, x)
    decreases |cs|
  {
    if |cs| > 0 {
      var init := cs[..|cs| - 1];
      var last := cs[|cs| - 1];
      InitOfRun(cs);
      RunAppend(m, init, [last]);
      RunTriggersLastCallback(m, init, x);
      assert Run(Run(m, init), [last]) == Apply(Run(m, init), last);
    }
  }

  /** A menu built on a fresh one lists exactly the added entries in call
      order, and has a callback for exactly their item ids. */
  lemma BuiltFromFresh(cs: seq<Call>)
    requires AllAllowed(cs) && NoClear(cs)
    ensures Items(Run(Empty, cs)) == Added(cs)
    ensures Callbacks(Run(Empty, cs)).Keys == ItemIds(Items(Run(Empty, cs)))
    ensures Valid(Run(Empty, cs))
  {
    RunInCallOrder(Empty, cs);
    RunRegistersItemIds(Empty, cs);
    RunKeepsValid(Empty, cs);
    assert [] + Added(cs) == Added(cs);
  }

  /** Adding `Custom` with id 26500 and then a separator to a fresh menu
      lists that item and the separator, and activating 26500 triggers `cb`. */
  lemma CustomItemThenSeparator(cb: CallbackToken)
    ensures Items(AddSeparator(AddItem(Empty, 26500, "Custom", true, cb)))
         == [Item(26500, "Custom", true), Separator]
    ensures Triggered(AddSeparator(AddItem(Empty, 26500, "Custom", true, cb)), 26500) == Some(cb)
  {
  }

  /** Both ends of the range are user ids and nothing just outside it is. */
  lemma UserIdRangeEnds()
    ensures IsUserId(MenuIdUserFirst) && IsUserId(MenuIdUserLast)
    ensures !IsUserId(MenuIdUserFirst - 1) && !IsUserId(MenuIdUserLast + 1)
  {
  }
}
