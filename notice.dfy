/**
 * The one-shot banner of the panel (`mensaje_limpieza_global`): the message the start-up
 * de-duplication leaves is shown on the first panel visit without a success message of its own,
 * and then forgotten.
 */
module Notice {
  import opened Wrappers
  import opened Strings

  /** The warning sign and variation selector put before the message. */
  const WarningPrefix := "\U{26A0}\U{FE0F} "

  /** The start-up message, naming how many duplicate rows were deleted. */
  function DuplicatesMessage(removed: nat): string
  {
    "Se detectaron y eliminaron " + Show(removed) + " registros duplicados."
  }

  /** What the start-up leaves pending: a message when duplicates were deleted, else nothing. */
  function StartupNotice(removed: Option<nat>): (r: Option<string>)
    ensures r.Some? <==> removed.Some?
    ensures r.Some? ==> r.value != []
  {
    match removed
    case None => None
    case Some(n) => Some(DuplicatesMessage(n))
  }

  /** A pending message is shown only when it is not empty (Python's truth test on a string). */
  predicate Due(pending: Option<string>, success: string)
  {
    pending.Some? && pending.value != [] && success == []
  }

  /**
   * The success text the panel shows given the `success` argument, and what stays pending: the
   * stripped argument, unless the pending message is due, which then replaces it and is cleared.
   */
  function PanelSuccess(pending: Option<string>, successArg: string): (string, Option<string>)
  {
    var success := Trim(successArg);
    if Due(pending, success) then (WarningPrefix + pending.value, None) else (success, pending)
  }

  /**
   * The message is shown at most once: after a visit that shows it nothing is pending, so the next
   * visit shows only its own text; and a visit that does not show it leaves it pending.
   */
  lemma ShownOnce(pending: Option<string>, first: string, second: string)
    ensures var (shown, left) := PanelSuccess(pending, first);
      && (shown != Trim(first) ==> left == None && PanelSuccess(left, second) == (Trim(second), None))
      && (shown == Trim(first) ==> left == pending)
  {
    var success := Trim(first);
    if Due(pending, success) {
      assert |WarningPrefix + pending.value| > 0;
    }
  }

  /** A pending message that is not empty is shown by the first visit whose argument is blank. */
  lemma ShownWhenBlank(message: string, successArg: string)
    requires message != []
    ensures IsBlank(successArg) ==> PanelSuccess(Some(message), successArg) == (WarningPrefix + message, None)
    ensures !IsBlank(successArg) ==> PanelSuccess(Some(message), successArg) == (Trim(successArg), Some(message))
  {
    BlankIffTrimEmpty(successArg);
  }

  /** The global message, as an object whose one field the panel clears. */
  class CleanupNotice {
    var pending: Option<string>

    /** `mensaje_limpieza_global` as the start-up sets it from the de-duplication's outcome. */
    constructor(removed: Option<nat>)
      ensures pending == StartupNotice(removed)
    {
      pending := StartupNotice(removed);
    }

    /** The panel's handling of the `success` argument. */
    method Panel(successArg: string) returns (success: string)
      modifies this
      ensures (success, pending) == PanelSuccess(old(pending), successArg)
    {
      success := Trim(successArg);
      if pending.Some? && pending.value != [] && |success| == 0 {
        success := WarningPrefix + pending.value;
        pending := None;
      }
    }
  }
}
