/**
 * The crate entry points: `create_report`, which compares two parsed crates or reports which of
 * them could not be read, and `fmt_path`, which writes a path as `a::b::c`.
 */
module Lib {
  import opened Basics
  import opened Reports
  import opened Compare

  // ---------------------------------------------------------------------------------------
  // `create_report`

  /** The item pushed when the crate at `path` could not be parsed. */
  function ReadFailure(path: string): (item: ReportItem)
    ensures item.severity == Error
    ensures "Failed to read crate at " <= item.text && item.text[24..] == path
  {
    ReportItem(Error, "Failed to read crate at " + path)
  }

  /**
   * The items of the report `create_report` returns, given what parsing each file produced: an
   * error per side that failed, old before new, and the comparison only when both sides parsed.
   */
  ghost function ReportSpec(oldPath: string, newPath: string, oldCrate: Option<Crate>, newCrate: Option<Crate>): seq<ReportItem>
  {
    (if oldCrate.None? then [ReadFailure(oldPath)] else [])
    + (if newCrate.None? then [ReadFailure(newPath)] else [])
    + (if oldCrate.Some? && newCrate.Some? then CratesSpec(oldCrate.value, newCrate.value) else [])
  }

  /** `create_report`, with the results of parsing the two files passed in. */
  method CreateReport(oldPath: string, newPath: string, oldCrate: Option<Crate>, newCrate: Option<Crate>)
    returns (report: Report)
    ensures fresh(report)
    ensures report.items == ReportSpec(oldPath, newPath, oldCrate, newCrate)
  {
    report := new Report();
    if oldCrate.None? {
      report.Push(Error, "Failed to read crate at " + oldPath);
    }
    if newCrate.None? {
      report.Push(Error, "Failed to read crate at " + newPath);
    }
    if oldCrate.Some? && newCrate.Some? {
      CompareCrates(report, oldCrate.value, newCrate.value);
    }
  }

  /**
   * When a side fails to parse, the report holds exactly one error per failed side, old before
   * new, nothing else, and its maximum severity is `Error`; when both parse it is the comparison.
   */
  lemma CreateReportOutcomes(oldPath: string, newPath: string, oldCrate: Option<Crate>, newCrate: Option<Crate>)
    ensures var items := ReportSpec(oldPath, newPath, oldCrate, newCrate);
      && (oldCrate.None? && newCrate.None? ==> items == [ReadFailure(oldPath), ReadFailure(newPath)])
      && (oldCrate.None? && newCrate.Some? ==> items == [ReadFailure(oldPath)])
      && (oldCrate.Some? && newCrate.None? ==> items == [ReadFailure(newPath)])
      && (oldCrate.Some? && newCrate.Some? ==> items == CratesSpec(oldCrate.value, newCrate.value))
      && (oldCrate.None? || newCrate.None? ==> MaxSeverityOf(items) == Error)
  {
    var items := ReportSpec(oldPath, newPath, oldCrate, newCrate);
    if oldCrate.None? || newCrate.None? {
      assert items != [] && items[0].severity == Error;
      assert AtMost(items[0].severity, MaxSeverityOf(items));
    }
  }

  // ---------------------------------------------------------------------------------------
  // `fmt_path`

  /** A path: whether it starts at the crate root (`::a::b`), and the names of its segments. */
  datatype Path = Path(global: bool, segments: seq<string>)

  /** The text `fmt_path` produces: the names joined by `::`, with a leading `::` on a global path. */
  function PathText(p: Path): string
  {
    (if p.global && |p.segments| > 0 then "::" else "") + Join(p.segments, "::")
  }

  /** `fmt_path`: the `first` flag suppresses the separator before the first name of a relative path. */
  method FmtPath(p: Path) returns (res: string)
    ensures res == PathText(p)
  {
    res := "";
    var first := !p.global;
    for i := 0 to |p.segments|
      invariant first == (!p.global && i == 0)
      invariant res == if i == 0 then "" else (if p.global then "::" else "") + Join(p.segments[..i], "::")
    {
      if first {
        first := false;
      } else {
        res := res + "::";
      }
      if i > 0 {
        JoinSnoc(p.segments[..i], "::", p.segments[i]);
      }
      assert p.segments[..i + 1] == p.segments[..i] + [p.segments[i]];
      res := res + p.segments[i];
    }
    assert p.segments[..|p.segments|] == p.segments;
  }

  /** The name of a segment: not empty, and without a colon. */
  predicate IsIdent(s: string)
  {
    |s| > 0 && forall k | 0 <= k < |s| :: s[k] != ':'
  }

  /** Cut `s` at every `::`, the first piece starting with `acc`. */
  function SplitPath(s: string, acc: string): (r: seq<string>)
    ensures |r| > 0
  {
    if |s| == 0 then [acc]
    else if |s| >= 2 && s[0] == ':' && s[1] == ':' then [acc] + SplitPath(s[2..], "")
    else SplitPath(s[1..], acc + [s[0]])
  }

  /** Read a path back from its text: a leading `::` makes it global. */
  function ParsePath(s: string): Path
  {
    if |s| >= 2 && s[0] == ':' && s[1] == ':' then Path(true, SplitPath(s[2..], ""))
    else Path(false, SplitPath(s, ""))
  }

  /** The characters of a name without colons join the current piece. */
  lemma {:induction false} SplitIdent(seg: string, rest: string, acc: string)
    requires forall k | 0 <= k < |seg| :: seg[k] != ':'
    requires rest == [] || (|rest| >= 2 && rest[0] == ':' && rest[1] == ':')
    ensures SplitPath(seg + rest, acc) == SplitPath(rest, acc + seg)
    decreases |seg|
  {
    if |seg| > 0 {
      assert (seg + rest)[1..] == seg[1..] + rest;
      assert acc + [seg[0]] + seg[1..] == acc + seg;
      SplitIdent(seg[1..], rest, acc + [seg[0]]);
    } else {
      assert seg + rest == rest;
      assert acc + seg == acc;
    }
  }

  /** Cutting names joined by `::` gives the names back. */
  lemma {:induction false} SplitJoin(parts: seq<string>)
    requires |parts| > 0
    requires forall i | 0 <= i < |parts| :: IsIdent(parts[i])
    ensures SplitPath(Join(parts, "::"), "") == parts
    decreases |parts|
  {
    if |parts| == 1 {
      SplitIdent(parts[0], [], "");
      assert parts[0] + [] == parts[0];
      assert "" + parts[0] == parts[0];
    } else {
      var rest := "::" + Join(parts[1..], "::");
      assert Join(parts, "::") == parts[0] + rest;
      SplitIdent(parts[0], rest, "");
      assert "" + parts[0] == parts[0];
      assert rest[2..] == Join(parts[1..], "::");
      SplitJoin(parts[1..]);
      assert [parts[0]] + parts[1..] == parts;
    }
  }

  /** The first part starts the joined text. */
  lemma JoinStartsWithFirst(parts: seq<string>, sep: string)
    requires |parts| > 0
    ensures parts[0] <= Join(parts, sep)
  {
  }

  /**
   * `fmt_path` loses nothing: a path of one or more names is read back from its text, so its
   * leading `::` appears exactly when the path is global and the names are separated by single `::`.
   */
  lemma PathRoundTrip(p: Path)
    requires |p.segments| > 0
    requires forall i | 0 <= i < |p.segments| :: IsIdent(p.segments[i])
    ensures ParsePath(PathText(p)) == p
  {
    var joined := Join(p.segments, "::");
    SplitJoin(p.segments);
    JoinStartsWithFirst(p.segments, "::");
    assert joined[0] == p.segments[0][0];
    if p.global {
      assert PathText(p)[2..] == joined;
    } else {
      assert PathText(p) == joined;
    }
  }

  /** A relative path of no names is empty text and one of a single name is that name. */
  lemma ShortPaths(name: string)
    ensures PathText(Path(false, [])) == ""
    ensures PathText(Path(false, [name])) == name
    ensures PathText(Path(true, [name])) == "::" + name
  {
  }

  /** Writing one more name adds exactly one `::` and that name. */
  lemma PathSnoc(p: Path, name: string)
    requires |p.segments| > 0
    ensures PathText(Path(p.global, p.segments + [name])) == PathText(p) + "::" + name
  {
    JoinSnoc(p.segments, "::", name);
  }
}
