/** The flat report of src/report.rs: severities, report items and the report that collects them. */
module Reports {

  /** Severities, declared from the least to the most severe. */
  datatype Severity =
    | Debug         // tool debug
    | Note          // tool note
    | Minor         // change requiring a minor release
    | Warning       // tool warning
    | SemiBreaking  // breaking, but not considered to require a major release
    | Breaking      // change requiring a major release (the comparison engine's `Major`)
    | Error         // tool error

  /** Position of a severity in declaration order, which is the derived `Ord`. */
  function Rank(s: Severity): nat
  {
    match s
    case Debug => 0
    case Note => 1
    case Minor => 2
    case Warning => 3
    case SemiBreaking => 4
    case Breaking => 5
    case Error => 6
  }

  predicate AtMost(a: Severity, b: Severity)
  {
    Rank(a) <= Rank(b)
  }

  function Max(a: Severity, b: Severity): Severity
  {
    if AtMost(a, b) then b else a
  }

  /** The derived order is a total order and follows declaration order. */
  lemma SeverityTotalOrder(a: Severity, b: Severity, c: Severity)
    ensures AtMost(a, a)
    ensures AtMost(a, b) && AtMost(b, a) ==> a == b
    ensures AtMost(a, b) && AtMost(b, c) ==> AtMost(a, c)
    ensures AtMost(a, b) || AtMost(b, a)
    ensures Rank(Debug) < Rank(Note) < Rank(Minor) < Rank(Warning) < Rank(SemiBreaking) < Rank(Breaking) < Rank(Error)
  {
  }

  datatype ReportItem = ReportItem(severity: Severity, text: string)

  /** The largest severity of the items; `Note` when there are none. */
  function MaxSeverityOf(items: seq<ReportItem>): (m: Severity)
    ensures items == [] ==> m == Note
    ensures forall i | 0 <= i < |items| :: AtMost(items[i].severity, m)
    ensures items != [] ==> exists i :: 0 <= i < |items| && items[i].severity == m
  {
    if |items| == 0 then Note
    else if |items| == 1 then items[0].severity
    else Max(items[0].severity, MaxSeverityOf(items[1..]))
  }

  /** Pushing severity `s` to a non-empty report raises its maximum to at least `s` and no further. */
  lemma {:induction false} MaxSeverityAfterPush(items: seq<ReportItem>, item: ReportItem)
    requires items != []
    ensures MaxSeverityOf(items + [item]) == Max(MaxSeverityOf(items), item.severity)
    decreases |items|
  {
    if |items| == 1 {
      assert (items + [item])[1..] == [item];
    } else {
      assert (items + [item])[1..] == items[1..] + [item];
      MaxSeverityAfterPush(items[1..], item);
    }
  }

  /** A report holding only `Debug` items has maximum `Debug`, below the `Note` of an empty report. */
  lemma DebugOnlyReport(items: seq<ReportItem>)
    requires items != []
    requires forall i | 0 <= i < |items| :: items[i].severity == Debug
    ensures MaxSeverityOf(items) == Debug
    ensures Rank(MaxSeverityOf(items)) < Rank(MaxSeverityOf([]))
  {
    var i :| 0 <= i < |items| && items[i].severity == MaxSeverityOf(items);
  }

  /** Text of a `changed!` item: what changed, then its old and its new rendering on two lines. */
  function ChangedText(what: string, was: string, now: string): (t: string)
    ensures what + " has changed:\n  Was: " <= t
    ensures t[|what| + 21..] == was + "\n  Now: " + now
  {
    what + " has changed:\n  Was: " + was + "\n  Now: " + now
  }

  /** The report: the items pushed so far, in order. */
  class Report {
    var items: seq<ReportItem>

    /** `Report::new`: a report with no items. */
    constructor ()
      ensures items == []
    {
      items := [];
    }

    /** `push!`: append one item at the end. */
    method Push(severity: Severity, text: string)
      modifies this
      ensures items == old(items) + [ReportItem(severity, text)]
    {
      items := items + [ReportItem(severity, text)];
    }

    /** `changed!`: push one item saying what changed from what to what. */
    method Changed(severity: Severity, what: string, was: string, now: string)
      modifies this
      ensures items == old(items) + [ReportItem(severity, ChangedText(what, was, now))]
    {
      Push(severity, ChangedText(what, was, now));
    }

    /** Push the given items one after another. */
    method PushAll(more: seq<ReportItem>)
      modifies this
      ensures items == old(items) + more
    {
      for i := 0 to |more|
        invariant items == old(items) + more[..i]
      {
        Push(more[i].severity, more[i].text);
        assert more[..i + 1] == more[..i] + [more[i]];
      }
      assert more[..|more|] == more;
    }

    /** `max_severity`. */
    function MaxSeverity(): (m: Severity)
      reads this
      ensures items == [] ==> m == Note
      ensures forall i | 0 <= i < |items| :: AtMost(items[i].severity, m)
      ensures items != [] ==> exists i :: 0 <= i < |items| && items[i].severity == m
    {
      MaxSeverityOf(items)
    }
  }
}
