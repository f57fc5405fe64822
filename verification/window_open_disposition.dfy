/**
 `QCefWindowOpenDisposition`: the manner in which a link click should be
 opened. The numbering mirrors Chromium's window_open_disposition.h and is a
 binary contract: it must not be renumbered.
 */
module WindowOpenDisposition {
  import opened Options

  datatype Disposition =
    | Unknown
    | CurrentTab
    | SingletonTab
    | NewForegroundTab
    | NewBackgroundTab
    | NewPopup
    | NewWindow
    | SaveToDisk
    | OffTheRecord
    | IgnoreAction

  /** The enumerators in the order the header declares them. An enumerator
      without an initialiser takes the value of its position here. */
  const Declared: seq<Disposition> := [
    Unknown, CurrentTab, SingletonTab, NewForegroundTab, NewBackgroundTab,
    NewPopup, NewWindow, SaveToDisk, OffTheRecord, IgnoreAction
  ]

  /** The numeric value of each enumerator, as Chromium numbers it. */
  function ToInt(d: Disposition): (n: int)
    ensures 0 <= n < |Declared|
    ensures Declared[n] == d
  {
    match d
    case Unknown => 0
    case CurrentTab => 1
    case SingletonTab => 2
    case NewForegroundTab => 3
    case NewBackgroundTab => 4
    case NewPopup => 5
    case NewWindow => 6
    case SaveToDisk => 7
    case OffTheRecord => 8
    case IgnoreAction => 9
  }

  /** The enumerator a raw value names, if any. */
  function FromInt(n: int): (r: Option<Disposition>)
    ensures r.Some? <==> 0 <= n <= 9
    ensures r.Some? ==> ToInt(r.value) == n
  {
    if 0 <= n < |Declared| then Some(Declared[n]) else None
  }

  /** Every enumerator survives the trip through its integer value. */
  lemma FromIntToInt(d: Disposition)
    ensures FromInt(ToInt(d)) == Some(d)
  {
  }

  /** Distinct enumerators have distinct values: the numbering is one-to-one
      onto 0..9. */
  lemma ToIntInjective(d: Disposition, e: Disposition)
    ensures ToInt(d) == ToInt(e) <==> d == e
  {
  }

  /** The declared order has ten distinct enumerators, so the numbering is
      onto: every value in 0..9 names exactly one of them. */
  lemma DeclaredIsComplete(n: int)
    requires 0 <= n <= 9
    ensures exists d :: ToInt(d) == n
  {
    assert ToInt(Declared[n]) == n;
  }
}
