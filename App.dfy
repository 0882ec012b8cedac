/** The dashboard: the sidebar filters applied to the fetched frame, and the extraction of
    polygon and point geometry from GML text for the map. Rendering, reprojection and the
    float values themselves are not modelled; coordinates stay the tokens they were read as. */
module App {
  import opened Wrappers
  import opened Text

  /** At most this many rows, taken from the front, are drawn on the map. */
  const MaxDisplayRecords: nat := 1000

  /** One row of the dashboard frame, by its displayed columns (`Locatienaam`, `Locatietype`,
      `Gemeente`, `Bronsysteem`, `point`, `gml`); `None` is a missing (NaN) cell. */
  datatype DashRow = DashRow(
    name: Option<string>,
    locationType: Option<string>,
    city: Option<string>,
    sourceSystem: Option<string>,
    point: Option<string>,
    gml: Option<string>)

  /** The columns a multiselect filters on. */
  datatype Column = SourceSystem | LocationType | City

  function Cell(row: DashRow, column: Column): Option<string>
  {
    match column
    case SourceSystem => row.sourceSystem
    case LocationType => row.locationType
    case City => row.city
  }

  /** One filter the sidebar can apply: a search on the location name, or a membership test
      of one column against a selection. */
  datatype Stage = NameSearch(query: string) | Membership(column: Column, selection: seq<string>)

  /** Whether a row survives one filter. The name search is pandas' `str.contains` with
      `case=False`, passed in as `matches`; a missing name never matches (`na=False`), and a
      missing cell is in no selection, since selections are drawn from present values. */
  predicate Keeps(stage: Stage, row: DashRow, matches: (string, string) -> bool)
  {
    match stage
    case NameSearch(query) => row.name.Some? && matches(row.name.value, query)
    case Membership(column, selection) => Cell(row, column).Some? && Cell(row, column).value in selection
  }

  /** One filter applied to a frame: the rows it keeps, in frame order (boolean-mask indexing). */
  function Keep(frame: seq<DashRow>, stage: Stage, matches: (string, string) -> bool): (kept: seq<DashRow>)
    ensures |kept| <= |frame|
    ensures forall i :: 0 <= i < |kept| ==> Keeps(stage, kept[i], matches)
  {
    if frame == [] then []
    else
      var rest := Keep(frame[1..], stage, matches);
      var head := if Keeps(stage, frame[0], matches) then [frame[0]] else [];
      assert forall i :: |head| <= i < |head + rest| ==> (head + rest)[i] == rest[i - |head|];
      head + rest
  }

  /** Whether a row survives every filter of a list. */
  predicate PassesAll(stages: seq<Stage>, row: DashRow, matches: (string, string) -> bool)
  {
    forall i :: 0 <= i < |stages| ==> Keeps(stages[i], row, matches)
  }

  /** The reference selection: the rows that pass all filters at once, in frame order. */
  function Select(frame: seq<DashRow>, stages: seq<Stage>, matches: (string, string) -> bool): (kept: seq<DashRow>)
    ensures |kept| <= |frame|
    ensures forall i :: 0 <= i < |kept| ==> PassesAll(stages, kept[i], matches)
  {
    if frame == [] then []
    else
      var rest := Select(frame[1..], stages, matches);
      var head := if PassesAll(stages, frame[0], matches) then [frame[0]] else [];
      assert forall i :: |head| <= i < |head + rest| ==> (head + rest)[i] == rest[i - |head|];
      head + rest
  }

  /** A row is selected exactly when it is in the frame and passes every filter. */
  lemma {:induction false} SelectMembers(frame: seq<DashRow>, stages: seq<Stage>, matches: (string, string) -> bool,
                                         row: DashRow)
    ensures row in Select(frame, stages, matches) <==> row in frame && PassesAll(stages, row, matches)
  {
    if frame != [] {
      SelectMembers(frame[1..], stages, matches, row);
      assert row in frame <==> row == frame[0] || row in frame[1..] by {
        assert frame == [frame[0]] + frame[1..];
      }
    }
  }

  /** Applying one more filter to a selection narrows it to the conjunction, keeping order. */
  lemma {:induction false} KeepAfterSelect(frame: seq<DashRow>, stages: seq<Stage>, stage: Stage,
                                           matches: (string, string) -> bool)
    ensures Keep(Select(frame, stages, matches), stage, matches) == Select(frame, stages + [stage], matches)
  {
    if frame != [] {
      KeepAfterSelect(frame[1..], stages, stage, matches);
      var row := frame[0];
      var all := stages + [stage];
      assert PassesAll(all, row, matches) <==> PassesAll(stages, row, matches) && Keeps(stage, row, matches) by {
        assert forall i :: 0 <= i < |stages| ==> all[i] == stages[i];
        assert all[|stages|] == stage;
      }
      var head := if PassesAll(stages, row, matches) then [row] else [];
      KeepAppend(head, Select(frame[1..], stages, matches), stage, matches);
    }
  }

  /** One filter applied to a frame led by one row. */
  lemma KeepCons(row: DashRow, rest: seq<DashRow>, stage: Stage, matches: (string, string) -> bool)
    ensures Keep([row] + rest, stage, matches)
         == (if Keeps(stage, row, matches) then [row] else []) + Keep(rest, stage, matches)
  {
    assert ([row] + rest)[0] == row;
    assert ([row] + rest)[1..] == rest;
  }

  /** One more row in front keeps filtering distributive over concatenation. */
  lemma KeepAppendCons(row: DashRow, rest: seq<DashRow>, b: seq<DashRow>, stage: Stage, matches: (string, string) -> bool)
    requires Keep(rest + b, stage, matches) == Keep(rest, stage, matches) + Keep(b, stage, matches)
    ensures Keep([row] + rest + b, stage, matches) == Keep([row] + rest, stage, matches) + Keep(b, stage, matches)
  {
    var head := if Keeps(stage, row, matches) then [row] else [];
    var left, right := Keep(rest, stage, matches), Keep(b, stage, matches);
    assert Keep([row] + rest + b, stage, matches) == head + (left + right) by {
      assert [row] + rest + b == [row] + (rest + b);
      KeepCons(row, rest + b, stage, matches);
    }
    KeepCons(row, rest, stage, matches);
    assert head + (left + right) == (head + left) + right;
  }

  /** Filtering distributes over concatenation: it never reorders rows. */
  lemma {:induction false} KeepAppend(a: seq<DashRow>, b: seq<DashRow>, stage: Stage, matches: (string, string) -> bool)
    ensures Keep(a + b, stage, matches) == Keep(a, stage, matches) + Keep(b, stage, matches)
  {
    if a == [] {
      assert a + b == b;
    } else {
      KeepAppend(a[1..], b, stage, matches);
      KeepAppendCons(a[0], a[1..], b, stage, matches);
      assert a == [a[0]] + a[1..];
    }
  }

  /** The reference selection of a frame led by one row. */
  lemma SelectCons(row: DashRow, rest: seq<DashRow>, stages: seq<Stage>, matches: (string, string) -> bool)
    ensures Select([row] + rest, stages, matches)
         == (if PassesAll(stages, row, matches) then [row] else []) + Select(rest, stages, matches)
  {
    assert ([row] + rest)[0] == row;
    assert ([row] + rest)[1..] == rest;
  }

  /** One more row in front keeps the selection distributive over concatenation. */
  lemma SelectAppendCons(row: DashRow, rest: seq<DashRow>, b: seq<DashRow>, stages: seq<Stage>, matches: (string, string) -> bool)
    requires Select(rest + b, stages, matches) == Select(rest, stages, matches) + Select(b, stages, matches)
    ensures Select([row] + rest + b, stages, matches) == Select([row] + rest, stages, matches) + Select(b, stages, matches)
  {
    var head := if PassesAll(stages, row, matches) then [row] else [];
    var left, right := Select(rest, stages, matches), Select(b, stages, matches);
    assert Select([row] + rest + b, stages, matches) == head + (left + right) by {
      assert [row] + rest + b == [row] + (rest + b);
      SelectCons(row, rest + b, stages, matches);
    }
    SelectCons(row, rest, stages, matches);
    assert head + (left + right) == (head + left) + right;
  }

  /** The reference selection distributes over concatenation as well. */
  lemma {:induction false} SelectAppend(a: seq<DashRow>, b: seq<DashRow>, stages: seq<Stage>, matches: (string, string) -> bool)
    ensures Select(a + b, stages, matches) == Select(a, stages, matches) + Select(b, stages, matches)
  {
    if a == [] {
      assert a + b == b;
    } else {
      SelectAppend(a[1..], b, stages, matches);
      SelectAppendCons(a[0], a[1..], b, stages, matches);
      assert a == [a[0]] + a[1..];
    }
  }

  /** With no filter, the selection is the whole frame. */
  lemma {:induction false} SelectNothing(frame: seq<DashRow>, matches: (string, string) -> bool)
    ensures Select(frame, [], matches) == frame
  {
    if frame != [] {
      SelectNothing(frame[1..], matches);
    }
  }

  /** A filter that applies only when its sidebar input is non-empty. */
  function Optional(active: bool, stage: Stage): seq<Stage>
  {
    if active then [stage] else []
  }

  /** The filters the sidebar applies, in source order: a non-empty search text, then each
      non-empty multiselect (source system, location type, municipality). */
  function ActiveStages(nameQuery: string, sources: seq<string>, types: seq<string>, cities: seq<string>): seq<Stage>
  {
    Optional(nameQuery != "", NameSearch(nameQuery))
    + Optional(sources != [], Membership(SourceSystem, sources))
    + Optional(types != [], Membership(LocationType, types))
    + Optional(cities != [], Membership(City, cities))
  }

  /** `apply_filters`: reassigns the frame once per non-empty sidebar input. The result is
      the reference selection under exactly the active filters. */
  method ApplyFilters(frame: seq<DashRow>, nameQuery: string, sources: seq<string>, types: seq<string>,
                      cities: seq<string>, matches: (string, string) -> bool)
    returns (filtered: seq<DashRow>)
    ensures filtered == Select(frame, ActiveStages(nameQuery, sources, types, cities), matches)
  {
    filtered := frame;
    ghost var applied: seq<Stage> := [];
    SelectNothing(frame, matches);
    if nameQuery != "" {
      KeepAfterSelect(frame, applied, NameSearch(nameQuery), matches);
      assert applied + [NameSearch(nameQuery)] == [NameSearch(nameQuery)];
      filtered := Keep(filtered, NameSearch(nameQuery), matches);
    }
    applied := Optional(nameQuery != "", NameSearch(nameQuery));
    assert filtered == Select(frame, applied, matches);
    ghost var before := applied;
    if sources != [] {
      KeepAfterSelect(frame, applied, Membership(SourceSystem, sources), matches);
      filtered := Keep(filtered, Membership(SourceSystem, sources), matches);
    }
    applied := applied + Optional(sources != [], Membership(SourceSystem, sources));
    assert sources == [] ==> applied == before;
    assert filtered == Select(frame, applied, matches);
    before := applied;
    if types != [] {
      KeepAfterSelect(frame, applied, Membership(LocationType, types), matches);
      filtered := Keep(filtered, Membership(LocationType, types), matches);
    }
    applied := applied + Optional(types != [], Membership(LocationType, types));
    assert types == [] ==> applied == before;
    assert filtered == Select(frame, applied, matches);
    before := applied;
    if cities != [] {
      KeepAfterSelect(frame, applied, Membership(City, cities), matches);
      filtered := Keep(filtered, Membership(City, cities), matches);
    }
    applied := applied + Optional(cities != [], Membership(City, cities));
    assert cities == [] ==> applied == before;
  }

  /** A row is kept exactly when it is in the frame and passes every non-empty input:
      the filters combine as a conjunction, and an empty input constrains nothing. */
  lemma FilterMembership(frame: seq<DashRow>, nameQuery: string, sources: seq<string>, types: seq<string>,
                         cities: seq<string>, matches: (string, string) -> bool, row: DashRow)
    ensures row in Select(frame, ActiveStages(nameQuery, sources, types, cities), matches) <==>
      row in frame
      && (nameQuery != "" ==> row.name.Some? && matches(row.name.value, nameQuery))
      && (sources != [] ==> row.sourceSystem.Some? && row.sourceSystem.value in sources)
      && (types != [] ==> row.locationType.Some? && row.locationType.value in types)
      && (cities != [] ==> row.city.Some? && row.city.value in cities)
  {
    var stages := ActiveStages(nameQuery, sources, types, cities);
    SelectMembers(frame, stages, matches, row);
    var name := Optional(nameQuery != "", NameSearch(nameQuery));
    var source := Optional(sources != [], Membership(SourceSystem, sources));
    var kind := Optional(types != [], Membership(LocationType, types));
    var city := Optional(cities != [], Membership(City, cities));
    PassesAllAppend(name + source + kind, city, row, matches);
    PassesAllAppend(name + source, kind, row, matches);
    PassesAllAppend(name, source, row, matches);
    PassesOptional(nameQuery != "", NameSearch(nameQuery), row, matches);
    PassesOptional(sources != [], Membership(SourceSystem, sources), row, matches);
    PassesOptional(types != [], Membership(LocationType, types), row, matches);
    PassesOptional(cities != [], Membership(City, cities), row, matches);
  }

  lemma PassesAllAppend(a: seq<Stage>, b: seq<Stage>, row: DashRow, matches: (string, string) -> bool)
    ensures PassesAll(a + b, row, matches) <==> PassesAll(a, row, matches) && PassesAll(b, row, matches)
  {
    if PassesAll(a, row, matches) && PassesAll(b, row, matches) {
      forall i | 0 <= i < |a + b|
        ensures Keeps((a + b)[i], row, matches)
      {
        if i >= |a| {
          assert (a + b)[i] == b[i - |a|];
        }
      }
    }
    if PassesAll(a + b, row, matches) {
      forall i | 0 <= i < |a|
        ensures Keeps(a[i], row, matches)
      {
        assert (a + b)[i] == a[i];
      }
      forall i | 0 <= i < |b|
        ensures Keeps(b[i], row, matches)
      {
        assert (a + b)[|a| + i] == b[i];
      }
    }
  }

  lemma PassesOptional(active: bool, stage: Stage, row: DashRow, matches: (string, string) -> bool)
    ensures PassesAll(Optional(active, stage), row, matches) <==> (active ==> Keeps(stage, row, matches))
  {
    if active {
      assert Optional(active, stage)[0] == stage;
    }
  }

  /** With every sidebar input empty, the frame is returned unchanged. */
  lemma NoFiltersUnchanged(frame: seq<DashRow>, matches: (string, string) -> bool)
    ensures Select(frame, ActiveStages("", [], [], []), matches) == frame
  {
    SelectNothing(frame, matches);
  }

  // ---------------------------------------------------------------------------------------
  // Map view: regular-expression search in GML text

  const PosListOpen: string := "<gml:posList>"
  const PosListClose: string := "</gml:posList>"
  const PosOpen: string := "<gml:pos>"
  const PosClose: string := "</gml:pos>"

  /** The two searched patterns: `<gml:posList>([-\d. ]+)</gml:posList>` for polygons and
      `<gml:pos>([-\d.]+) ([-\d.]+)</gml:pos>` for points. */
  datatype Pattern = PosListPattern | PosPattern

  /** The character classes of their groups: `[-\d.]`, and `[-\d. ]` with the space. */
  predicate NumberChar(c: char)
  {
    c == '-' || IsDigit(c) || c == '.'
  }

  predicate InGroup(c: char, spaces: bool)
  {
    NumberChar(c) || (spaces && c == ' ')
  }

  /** A non-empty text of group characters, as a `+` group captures. */
  predicate GroupText(w: string, spaces: bool)
  {
    w != [] && forall i :: 0 <= i < |w| ==> InGroup(w[i], spaces)
  }

  /** Whether `t` occurs in `s` at position `p`. */
  predicate HasAt(s: string, p: nat, t: string)
  {
    p + |t| <= |s| && s[p..p + |t|] == t
  }

  /** An occurrence of `open`, one group of the class, and `close`, at `p`. */
  predicate OccursOne(s: string, p: nat, open: string, close: string, spaces: bool, groups: seq<string>)
  {
    |groups| == 1 && GroupText(groups[0], spaces) && HasAt(s, p, open + groups[0] + close)
  }

  /** An occurrence of `open`, a number group, one space, a number group, and `close`, at `p`. */
  predicate OccursTwo(s: string, p: nat, open: string, close: string, groups: seq<string>)
  {
    |groups| == 2 && GroupText(groups[0], false) && GroupText(groups[1], false)
    && HasAt(s, p, open + groups[0] + " " + groups[1] + close)
  }

  /** The pattern matches `s` at `p` with these captured groups. */
  predicate OccursAt(s: string, p: nat, pattern: Pattern, groups: seq<string>)
  {
    match pattern
    case PosListPattern => OccursOne(s, p, PosListOpen, PosListClose, true, groups)
    case PosPattern => OccursTwo(s, p, PosOpen, PosClose, groups)
  }

  /** The length of the longest prefix of group characters (what a greedy `+` consumes). */
  function Run(s: string, spaces: bool): (n: nat)
    ensures n <= |s|
    ensures forall i :: 0 <= i < n ==> InGroup(s[i], spaces)
    ensures n == |s| || !InGroup(s[n], spaces)
  {
    if s != [] && InGroup(s[0], spaces) then 1 + Run(s[1..], spaces) else 0
  }

  /** A run of group characters stopped by a character outside the class is exactly what the
      greedy group consumes. */
  lemma {:induction false} RunStops(s: string, w: string, spaces: bool)
    requires |w| < |s| && s[..|w|] == w
    requires forall i :: 0 <= i < |w| ==> InGroup(w[i], spaces)
    requires !InGroup(s[|w|], spaces)
    ensures Run(s, spaces) == |w|
  {
    if w != [] {
      RunStops(s[1..], w[1..], spaces);
    }
  }

  lemma HasAtAppend(s: string, p: nat, a: string, b: string)
    ensures HasAt(s, p, a + b) <==> HasAt(s, p, a) && HasAt(s, p + |a|, b)
  {
    if HasAt(s, p, a) && HasAt(s, p + |a|, b) {
      assert s[p..p + |a + b|] == s[p..p + |a|] + s[p + |a|..p + |a| + |b|];
    }
    if HasAt(s, p, a + b) {
      assert s[p..p + |a|] == (a + b)[..|a|];
      assert s[p + |a|..p + |a| + |b|] == (a + b)[|a|..];
    }
  }

  /** A close tag begins with `<`, which no group accepts. */
  lemma CloseTags()
    ensures PosListClose != [] && !InGroup(PosListClose[0], true)
    ensures PosClose != [] && !InGroup(PosClose[0], false)
  {
  }

  /** The greedy group at `q` followed by `stop`: the longest run of the class, which must
      be non-empty and then meet `stop`. */
  function GroupBefore(s: string, q: nat, stop: string, spaces: bool): (r: Option<string>)
    requires q <= |s|
    ensures r.Some? ==> q + |r.value| + |stop| <= |s|
  {
    var n := Run(s[q..], spaces);
    if n > 0 && HasAt(s, q + n, stop) then Some(s[q..q + n]) else None
  }

  /** What the greedy group captures is a group of its class standing at `q`, followed by `stop`. */
  lemma GroupBeforeSome(s: string, q: nat, stop: string, spaces: bool)
    requires q <= |s|
    ensures var r := GroupBefore(s, q, stop, spaces);
      r.Some? ==> GroupText(r.value, spaces) && HasAt(s, q, r.value) && HasAt(s, q + |r.value|, stop)
  {
  }

  /** The one-group pattern at `p`: the open tag, then the greedy group up to the close tag. */
  function MatchOneAt(s: string, p: nat, open: string, close: string, spaces: bool): Option<seq<string>>
    requires p <= |s|
  {
    if !HasAt(s, p, open) then None
    else
      match GroupBefore(s, p + |open|, close, spaces)
      case None => None
      case Some(w) => Some([w])
  }

  /** The two-group pattern at `p`: the open tag, a greedy group up to a single space, and a
      greedy group up to the close tag. */
  function MatchTwoAt(s: string, p: nat, open: string, close: string): Option<seq<string>>
    requires p <= |s|
  {
    if !HasAt(s, p, open) then None else NumberPair(s, p + |open|, close)
  }

  /** The two groups of the point pattern, from `q` on: a greedy group up to a single space,
      then a greedy group up to the close tag. */
  function NumberPair(s: string, q: nat, close: string): Option<seq<string>>
    requires q <= |s|
  {
    match GroupBefore(s, q, " ", false)
    case None => None
    case Some(x) =>
      match GroupBefore(s, q + |x| + 1, close, false)
      case None => None
      case Some(y) => Some([x, y])
  }

  /** Where a pattern matches at `p`, the groups it captures. */
  function MatchAt(s: string, p: nat, pattern: Pattern): Option<seq<string>>
    requires p <= |s|
  {
    match pattern
    case PosListPattern => MatchOneAt(s, p, PosListOpen, PosListClose, true)
    case PosPattern => MatchTwoAt(s, p, PosOpen, PosClose)
  }

  /** A group of the class standing at `q` and followed by `stop`, whose first character the
      class refuses, is what the greedy group captures there. */
  lemma GroupFound(s: string, q: nat, stop: string, spaces: bool, w: string)
    requires q <= |s| && stop != [] && !InGroup(stop[0], spaces)
    requires GroupText(w, spaces) && HasAt(s, q, w + stop)
    ensures GroupBefore(s, q, stop, spaces) == Some(w)
  {
    HasAtAppend(s, q, w, stop);
    assert s[q..][..|w|] == w;
    assert s[q..][|w|] == stop[0] by {
      assert s[q + |w|..q + |w| + |stop|] == stop;
    }
    RunStops(s[q..], w, spaces);
  }

  /** The one-group pattern matches at `p` with group `w` exactly when `s` holds the open
      tag, then `w`, then the close tag there. */
  lemma OneMatchAt(s: string, p: nat, open: string, close: string, spaces: bool, groups: seq<string>)
    requires p <= |s| && close != [] && !InGroup(close[0], spaces)
    ensures MatchOneAt(s, p, open, close, spaces) == Some(groups) <==> OccursOne(s, p, open, close, spaces, groups)
  {
    if MatchOneAt(s, p, open, close, spaces) == Some(groups) {
      var w := groups[0];
      HasAtAppend(s, p, open, w);
      HasAtAppend(s, p, open + w, close);
    }
    if OccursOne(s, p, open, close, spaces, groups) {
      assert groups == [groups[0]];
      OneFound(s, p, open, close, spaces, groups[0]);
    }
  }

  lemma OneFound(s: string, p: nat, open: string, close: string, spaces: bool, w: string)
    requires p <= |s| && close != [] && !InGroup(close[0], spaces)
    requires OccursOne(s, p, open, close, spaces, [w])
    ensures MatchOneAt(s, p, open, close, spaces) == Some([w])
  {
    assert HasAt(s, p, open) && HasAt(s, p + |open|, w + close) by {
      HasAtAppend(s, p, open + w, close);
      HasAtAppend(s, p, open, w);
      HasAtAppend(s, p + |open|, w, close);
    }
    GroupFound(s, p + |open|, close, spaces, w);
  }

  /** The two-group pattern matches at `p` with groups `x`, `y` exactly when `s` holds the
      open tag, `x`, one space, `y` and the close tag there. */
  lemma TwoMatchAt(s: string, p: nat, open: string, close: string, groups: seq<string>)
    requires p <= |s| && close != [] && !InGroup(close[0], false)
    ensures MatchTwoAt(s, p, open, close) == Some(groups) <==> OccursTwo(s, p, open, close, groups)
  {
    if MatchTwoAt(s, p, open, close) == Some(groups) {
      TwoMatched(s, p, open, close, groups[0], groups[1]);
    }
    if OccursTwo(s, p, open, close, groups) {
      assert groups == [groups[0], groups[1]];
      TwoFound(s, p, open, close, groups[0], groups[1]);
    }
  }

  lemma TwoMatched(s: string, p: nat, open: string, close: string, x: string, y: string)
    requires p <= |s|
    requires MatchTwoAt(s, p, open, close) == Some([x, y])
    ensures OccursTwo(s, p, open, close, [x, y])
  {
    HasAtAppend(s, p, open, x);
    HasAtAppend(s, p, open + x, " ");
    HasAtAppend(s, p, open + x + " ", y);
    HasAtAppend(s, p, open + x + " " + y, close);
  }

  /** The pieces of a two-group occurrence, each at its own position. */
  lemma TwoPieces(s: string, p: nat, open: string, close: string, x: string, y: string)
    requires OccursTwo(s, p, open, close, [x, y])
    ensures HasAt(s, p, open)
    ensures HasAt(s, p + |open|, x + " ")
    ensures HasAt(s, p + |open| + |x| + 1, y + close)
  {
    assert open + x + " " + y + close == open + x + " " + (y + close);
    HasAtAppend(s, p, open + x + " ", y + close);
    HasAtAppend(s, p, open + x, " ");
    HasAtAppend(s, p, open, x);
    HasAtAppend(s, p + |open|, x, " ");
  }

  lemma TwoFound(s: string, p: nat, open: string, close: string, x: string, y: string)
    requires p <= |s| && close != [] && !InGroup(close[0], false)
    requires OccursTwo(s, p, open, close, [x, y])
    ensures MatchTwoAt(s, p, open, close) == Some([x, y])
  {
    TwoPieces(s, p, open, close, x, y);
    PairFound(s, p + |open|, close, x, y);
  }

  lemma PairFound(s: string, q: nat, close: string, x: string, y: string)
    requires q <= |s| && close != [] && !InGroup(close[0], false)
    requires GroupText(x, false) && GroupText(y, false)
    requires HasAt(s, q, x + " ") && HasAt(s, q + |x| + 1, y + close)
    ensures NumberPair(s, q, close) == Some([x, y])
  {
    assert !InGroup(" "[0], false);
    GroupFound(s, q, " ", false, x);
    GroupFound(s, q + |x| + 1, close, false, y);
  }

  /** Matching at a position agrees with the occurrence of the pattern there. */
  lemma MatchAtIff(s: string, p: nat, pattern: Pattern, groups: seq<string>)
    requires p <= |s|
    ensures MatchAt(s, p, pattern) == Some(groups) <==> OccursAt(s, p, pattern, groups)
  {
    CloseTags();
    match pattern
    case PosListPattern => OneMatchAt(s, p, PosListOpen, PosListClose, true, groups);
    case PosPattern => TwoMatchAt(s, p, PosOpen, PosClose, groups);
  }

  /** The groups a match of the pattern captures: one coordinate list, or two numbers. */
  predicate Captures(pattern: Pattern, groups: seq<string>)
  {
    match pattern
    case PosListPattern => |groups| == 1 && GroupText(groups[0], true)
    case PosPattern => |groups| == 2 && GroupText(groups[0], false) && GroupText(groups[1], false)
  }

  /** `re.search` from position `p` on: the groups of the leftmost position where the
      pattern matches. */
  function SearchFrom(s: string, p: nat, pattern: Pattern): (r: Option<seq<string>>)
    requires p <= |s|
    ensures r.Some? ==> Captures(pattern, r.value)
    decreases |s| - p
  {
    match MatchAt(s, p, pattern)
    case Some(groups) =>
      MatchAtIff(s, p, pattern, groups);
      Some(groups)
    case None =>
      if p == |s| then None else SearchFrom(s, p + 1, pattern)
  }

  function Search(s: string, pattern: Pattern): (r: Option<seq<string>>)
    ensures r.Some? ==> Captures(pattern, r.value)
  {
    SearchFrom(s, 0, pattern)
  }

  /** The pattern occurs nowhere at positions `from` to `to`, both included. */
  ghost predicate NowhereBetween(s: string, from: nat, to: nat, pattern: Pattern)
  {
    forall q: nat, groups :: from <= q <= to ==> !OccursAt(s, q, pattern, groups)
  }

  /** A position without a match lets the search move on to the next one. */
  lemma NoMatchAt(s: string, p: nat, pattern: Pattern)
    requires p <= |s| && MatchAt(s, p, pattern).None?
    ensures forall groups :: !OccursAt(s, p, pattern, groups)
  {
    forall groups
      ensures !OccursAt(s, p, pattern, groups)
    {
      MatchAtIff(s, p, pattern, groups);
    }
  }

  /** The search misses exactly when the pattern occurs nowhere from `p` on. */
  lemma {:induction false} SearchFromMisses(s: string, p: nat, pattern: Pattern)
    requires p <= |s|
    ensures SearchFrom(s, p, pattern).None? <==> NowhereBetween(s, p, |s|, pattern)
    decreases |s| - p
  {
    match MatchAt(s, p, pattern)
    case Some(groups) =>
      MatchAtIff(s, p, pattern, groups);
    case None =>
      NoMatchAt(s, p, pattern);
      if p < |s| {
        SearchFromMisses(s, p + 1, pattern);
      }
  }

  /** When the search from `p` finds groups, they belong to the leftmost occurrence. */
  lemma {:induction false} SearchFromLeftmost(s: string, p: nat, pattern: Pattern)
    requires p <= |s| && SearchFrom(s, p, pattern).Some?
    ensures exists q: nat :: (p <= q <= |s| && OccursAt(s, q, pattern, SearchFrom(s, p, pattern).value)
                              && (q == p || NowhereBetween(s, p, q - 1, pattern)))
    decreases |s| - p
  {
    match MatchAt(s, p, pattern)
    case Some(groups) =>
      MatchAtIff(s, p, pattern, groups);
      assert OccursAt(s, p, pattern, SearchFrom(s, p, pattern).value);
    case None =>
      NoMatchAt(s, p, pattern);
      SearchFromLeftmost(s, p + 1, pattern);
      var q: nat :| p + 1 <= q <= |s| && OccursAt(s, q, pattern, SearchFrom(s, p + 1, pattern).value)
        && (q == p + 1 || NowhereBetween(s, p + 1, q - 1, pattern));
      assert NowhereBetween(s, p, q - 1, pattern);
  }

  /** `re.search` over the whole text: no match exactly when the pattern occurs nowhere. */
  lemma SearchMisses(s: string, pattern: Pattern)
    ensures Search(s, pattern).None? <==> NowhereBetween(s, 0, |s|, pattern)
  {
    SearchFromMisses(s, 0, pattern);
  }

  /** `re.search` over the whole text: a match is the leftmost occurrence. */
  lemma SearchLeftmost(s: string, pattern: Pattern)
    requires Search(s, pattern).Some?
    ensures exists q: nat :: (q <= |s| && OccursAt(s, q, pattern, Search(s, pattern).value)
                              && (q == 0 || NowhereBetween(s, 0, q - 1, pattern)))
  {
    SearchFromLeftmost(s, 0, pattern);
  }

  /** An occurrence at `p` with none before it is what `re.search` returns. */
  lemma SearchFindsFirst(s: string, p: nat, pattern: Pattern, groups: seq<string>)
    requires p <= |s| && OccursAt(s, p, pattern, groups)
    requires p == 0 || NowhereBetween(s, 0, p - 1, pattern)
    ensures Search(s, pattern) == Some(groups)
  {
    SearchMisses(s, pattern);
    assert !NowhereBetween(s, 0, |s|, pattern);
    SearchLeftmost(s, pattern);
    var found := Search(s, pattern).value;
    var q: nat :| q <= |s| && OccursAt(s, q, pattern, found) && (q == 0 || NowhereBetween(s, 0, q - 1, pattern));
    assert q == p;
    MatchAtIff(s, p, pattern, groups);
    MatchAtIff(s, p, pattern, found);
  }

  // ---------------------------------------------------------------------------------------
  // Map view: coordinates

  /** The length of the leading token of a text that starts with a non-space. */
  function TokenLength(s: string): (n: nat)
    requires s != [] && s[0] != ' '
    ensures 1 <= n <= |s| && ' ' !in s[..n] && (n == |s| || s[n] == ' ')
  {
    if |s| == 1 || s[1] == ' ' then 1
    else
      var n := 1 + TokenLength(s[1..]);
      assert s[..n] == [s[0]] + s[1..][..n - 1];
      n
  }

  /** `str.split()` on a captured coordinate list (whose only whitespace is the space): the
      maximal runs of non-space characters, in order. */
  function Tokens(s: string): (tokens: seq<string>)
    ensures forall i :: 0 <= i < |tokens| ==> tokens[i] != [] && ' ' !in tokens[i]
    decreases |s|
  {
    if s == [] then []
    else if s[0] == ' ' then Tokens(s[1..])
    else
      var n := TokenLength(s);
      [s[..n]] + Tokens(s[n..])
  }

  lemma TokenLengthOfWord(w: string, rest: string)
    requires w != [] && ' ' !in w
    requires rest == [] || rest[0] == ' '
    ensures TokenLength(w + rest) == |w|
    decreases |w|
  {
    if |w| > 1 {
      assert (w + rest)[1..] == w[1..] + rest;
      TokenLengthOfWord(w[1..], rest);
    }
  }

  /** One more word in front of a join adds one token in front. */
  lemma TokensOfJoinCons(w: string, tail: seq<string>)
    requires w != [] && ' ' !in w && tail != []
    ensures Tokens(Join([w] + tail, " ")) == [w] + Tokens(Join(tail, " "))
  {
    var rest := Join(tail, " ");
    assert Join([w] + tail, " ") == w + (" " + rest) by {
      assert ([w] + tail)[1..] == tail;
    }
    TokensOfWord(w, " " + rest);
    assert Tokens(" " + rest) == Tokens(rest) by {
      assert (" " + rest)[1..] == rest;
    }
  }

  /** Splitting undoes joining with single spaces: the tokens are the joined words. */
  lemma {:induction false} TokensOfJoin(words: seq<string>)
    requires forall i :: 0 <= i < |words| ==> words[i] != [] && ' ' !in words[i]
    ensures Tokens(Join(words, " ")) == words
  {
    if |words| == 1 {
      TokensOfWord(words[0], []);
      assert words[0] + [] == words[0];
    } else if |words| > 1 {
      TokensOfJoin(words[1..]);
      TokensOfJoinCons(words[0], words[1..]);
      assert words == [words[0]] + words[1..];
    }
  }

  /** `k` spaces. */
  function Blank(k: nat): (b: string)
    ensures |b| == k && forall i :: 0 <= i < k ==> b[i] == ' '
  {
    seq(k, i => ' ')
  }

  /** Words laid out with `gaps[i]` spaces before word `i` and `gaps[|words|]` after the
      last one. */
  function Padded(words: seq<string>, gaps: seq<nat>): string
    requires |gaps| == |words| + 1
  {
    if words == [] then Blank(gaps[0]) else Blank(gaps[0]) + (words[0] + Padded(words[1..], gaps[1..]))
  }

  /** Spaces in front of a text do not change its tokens. */
  lemma {:induction false} TokensAfterBlank(k: nat, s: string)
    ensures Tokens(Blank(k) + s) == Tokens(s)
  {
    if k > 0 {
      assert (Blank(k) + s)[1..] == Blank(k - 1) + s;
      TokensAfterBlank(k - 1, s);
    } else {
      assert Blank(k) + s == s;
    }
  }

  /** A word followed by nothing or by a space is the first token. */
  lemma TokensOfWord(w: string, rest: string)
    requires w != [] && ' ' !in w
    requires rest == [] || rest[0] == ' '
    ensures Tokens(w + rest) == [w] + Tokens(rest)
  {
    TokenLengthOfWord(w, rest);
    assert (w + rest)[..|w|] == w;
    assert (w + rest)[|w|..] == rest;
  }

  /** `split()` with no argument: leading, trailing and repeated spaces separate nothing, so
      the tokens of any layout of the words with at least one space between neighbours are
      the words. */
  lemma {:induction false} TokensOfPadded(words: seq<string>, gaps: seq<nat>)
    requires |gaps| == |words| + 1
    requires forall i :: 0 <= i < |words| ==> words[i] != [] && ' ' !in words[i]
    requires forall i :: 0 < i < |words| ==> gaps[i] > 0
    ensures Tokens(Padded(words, gaps)) == words
  {
    if words == [] {
      TokensAfterBlank(gaps[0], []);
      assert Blank(gaps[0]) + [] == Blank(gaps[0]);
    } else {
      var rest := Padded(words[1..], gaps[1..]);
      TokensAfterBlank(gaps[0], words[0] + rest);
      assert rest == [] || rest[0] == ' ';
      TokensOfWord(words[0], rest);
      TokensOfPadded(words[1..], gaps[1..]);
      assert words == [words[0]] + words[1..];
    }
  }

  /** A token without its leading minus, if it has one. */
  function Unsigned(t: string): (body: string)
    ensures |body| <= |t| && body == t[|t| - |body|..]
    ensures |t| - |body| <= 1 && (|body| < |t| <==> t != [] && t[0] == '-')
  {
    if t != [] && t[0] == '-' then t[1..] else t
  }

  /** Whether `float()` accepts a token drawn from `[-\d. ]`: an optional leading minus, then
      digits with at most one decimal point and at least one digit. */
  predicate IsFloatLiteral(t: string)
  {
    var body := Unsigned(t);
    (exists i :: 0 <= i < |body| && IsDigit(body[i]))
    && (forall i :: 0 <= i < |body| ==> IsDigit(body[i]) || body[i] == '.')
    && Count('.', body) <= 1
  }

  /** A leading minus is accepted in front of any unsigned form, and only there. */
  lemma MinusForm(t: string)
    requires t == [] || t[0] != '-'
    ensures IsFloatLiteral("-" + t) <==> IsFloatLiteral(t)
  {
    assert Unsigned("-" + t) == t;
    assert Unsigned(t) == t;
  }

  /** Non-empty digits are accepted. */
  lemma DigitsForm(d: string)
    requires d != [] && forall i :: 0 <= i < |d| ==> IsDigit(d[i])
    ensures IsFloatLiteral(d)
  {
    assert Unsigned(d) == d;
    CountAbsent('.', d);
  }

  /** Digits with one point among them, on either side or in between, are accepted. */
  lemma PointForm(d: string, e: string)
    requires forall i :: 0 <= i < |d| ==> IsDigit(d[i])
    requires forall i :: 0 <= i < |e| ==> IsDigit(e[i])
    requires d + e != []
    ensures IsFloatLiteral(d + "." + e)
  {
    var t := d + "." + e;
    assert Unsigned(t) == t;
    assert t == d + ("." + e);
    assert forall i :: 0 <= i < |t| ==> IsDigit(t[i]) || t[i] == '.';
    assert Count('.', t) == 1 by {
      CountAbsent('.', d);
      CountAbsent('.', e);
      CountAppend('.', d, "." + e);
      CountAppend('.', ".", e);
    }
    if d != [] {
      assert IsDigit(t[0]);
    } else {
      assert IsDigit(t[1]);
    }
  }

  /** `float()` refuses a token without any digit. */
  lemma NoDigitRefused(t: string)
    requires forall i :: 0 <= i < |t| ==> !IsDigit(t[i])
    ensures !IsFloatLiteral(t)
  {
    var body := Unsigned(t);
    assert forall i :: 0 <= i < |body| ==> body[i] == t[i + |t| - |body|];
  }

  /** `float()` refuses a token with a minus after its first character. */
  lemma InnerMinusRefused(t: string, i: nat)
    requires 1 <= i < |t| && t[i] == '-'
    ensures !IsFloatLiteral(t)
  {
    var body := Unsigned(t);
    var k := i - (|t| - |body|);
    assert 0 <= k < |body| && body[k] == '-';
  }

  /** `float()` refuses a token with two decimal points. */
  lemma TwoPointsRefused(t: string)
    requires Count('.', t) >= 2
    ensures !IsFloatLiteral(t)
  {
    if t != [] && t[0] == '-' {
      assert t == [t[0]] + t[1..];
      CountAppend('.', [t[0]], t[1..]);
    }
  }

  /** What aborts the map view: `float()` refusing a token, or pairing reading past the end. */
  datatype MapError = ValueError | IndexError

  /** The consecutive pairing `(c[i], c[i + 1])` for `i` in steps of two: pair `k` is tokens
      `2k` and `2k + 1`, and an odd count reads past the end. */
  function Pairs(tokens: seq<string>): (r: Result<seq<(string, string)>, MapError>)
    ensures r.Ok? <==> |tokens| % 2 == 0
    ensures r.Err? ==> r.error == IndexError
    ensures r.Ok? ==> |r.value| == |tokens| / 2
    ensures r.Ok? ==> forall k :: 0 <= k < |r.value| ==> r.value[k] == (tokens[2 * k], tokens[2 * k + 1])
  {
    if |tokens| == 0 then Ok([])
    else if |tokens| == 1 then Err(IndexError)
    else
      match Pairs(tokens[2..])
      case Err(e) => Err(e)
      case Ok(rest) =>
        var pairs := [(tokens[0], tokens[1])] + rest;
        assert forall k :: 1 <= k < |pairs| ==> pairs[k] == rest[k - 1];
        Ok(pairs)
  }

  /** The tokens of a pair list, in order. */
  function Flatten(pairs: seq<(string, string)>): (tokens: seq<string>)
    ensures |tokens| == 2 * |pairs|
  {
    if pairs == [] then [] else [pairs[0].0, pairs[0].1] + Flatten(pairs[1..])
  }

  /** Pairing and flattening are inverse. */
  lemma {:induction false} PairsOfFlatten(pairs: seq<(string, string)>)
    ensures Pairs(Flatten(pairs)) == Ok(pairs)
  {
    if pairs != [] {
      var tokens := Flatten(pairs);
      assert tokens[2..] == Flatten(pairs[1..]);
      PairsOfFlatten(pairs[1..]);
      assert pairs == [pairs[0]] + pairs[1..];
    }
  }

  lemma {:induction false} FlattenOfPairs(tokens: seq<string>)
    requires Pairs(tokens).Ok?
    ensures Flatten(Pairs(tokens).value) == tokens
    decreases |tokens|
  {
    if tokens != [] {
      FlattenOfPairs(tokens[2..]);
      assert tokens == [tokens[0], tokens[1]] + tokens[2..];
    }
  }

  /** The polygon ring read from a captured coordinate list: every token goes through
      `float()` first, then the tokens are paired. */
  function Ring(content: string): (r: Result<seq<(string, string)>, MapError>)
    ensures r == Err(ValueError) <==> exists i :: 0 <= i < |Tokens(content)| && !IsFloatLiteral(Tokens(content)[i])
    ensures r == Err(IndexError) <==>
      (forall i :: 0 <= i < |Tokens(content)| ==> IsFloatLiteral(Tokens(content)[i])) && |Tokens(content)| % 2 == 1
    ensures r.Ok? ==> Flatten(r.value) == Tokens(content)
  {
    var tokens := Tokens(content);
    if exists i :: 0 <= i < |tokens| && !IsFloatLiteral(tokens[i]) then
      assert exists i :: 0 <= i < |Tokens(content)| && !IsFloatLiteral(Tokens(content)[i]);
      Err(ValueError)
    else
      var pairs := Pairs(tokens);
      if pairs.Ok? then FlattenOfPairs(tokens); pairs else pairs
  }

  /** An odd number of well-formed coordinates aborts with `IndexError` rather than giving an
      empty or truncated ring. */
  lemma OddCoordinates(content: string)
    requires forall i :: 0 <= i < |Tokens(content)| ==> IsFloatLiteral(Tokens(content)[i])
    requires |Tokens(content)| % 2 == 1
    ensures Ring(content) == Err(IndexError)
  {
  }

  /** What one row draws on the map. */
  datatype Shape = Polygon(ring: seq<(string, string)>) | Marker(x: string, y: string)

  /** One iteration of the map loop: a present `gml` cell takes the polygon branch whether or
      not its pattern matches, and only a missing one lets the `point` cell be read. A
      pattern that does not match draws nothing. */
  function RowShape(row: DashRow): (r: Result<Option<Shape>, MapError>)
    ensures row.gml.None? && row.point.None? ==> r == Ok(None)
    ensures r.Ok? && r.value.Some? && r.value.value.Polygon? ==> row.gml.Some?
    ensures r.Ok? && r.value.Some? && r.value.value.Marker? ==>
      row.gml.None? && row.point.Some? && IsFloatLiteral(r.value.value.x) && IsFloatLiteral(r.value.value.y)
    ensures r == Err(IndexError) ==> row.gml.Some?
  {
    if row.gml.Some? then
      match Search(row.gml.value, PosListPattern)
      case None => Ok(None)
      case Some(groups) =>
        match Ring(groups[0])
        case Err(e) => Err(e)
        case Ok(ring) => Ok(Some(Polygon(ring)))
    else if row.point.Some? then
      match Search(row.point.value, PosPattern)
      case None => Ok(None)
      case Some(groups) =>
        if IsFloatLiteral(groups[0]) && IsFloatLiteral(groups[1]) then Ok(Some(Marker(groups[0], groups[1])))
        else Err(ValueError)
    else Ok(None)
  }

  /** A present `gml` cell decides the row alone: the `point` cell is never read, and no
      marker can come from such a row. */
  lemma PolygonPrecedence(row: DashRow, point: Option<string>)
    requires row.gml.Some?
    ensures RowShape(row.(point := point)) == RowShape(row)
    ensures RowShape(row).Ok? && RowShape(row).value.Some? ==> RowShape(row).value.value.Polygon?
  {
  }

  /** A `gml` cell where the coordinate-list pattern occurs nowhere draws nothing and raises
      nothing; the loop goes on with the next row. */
  lemma PolygonMissDrawsNothing(row: DashRow)
    requires row.gml.Some? && NowhereBetween(row.gml.value, 0, |row.gml.value|, PosListPattern)
    ensures RowShape(row) == Ok(None)
  {
    SearchMisses(row.gml.value, PosListPattern);
  }

  /** Likewise a `point` cell, read only without `gml`, where the point pattern occurs nowhere. */
  lemma PointMissDrawsNothing(row: DashRow)
    requires row.gml.None? && row.point.Some? && NowhereBetween(row.point.value, 0, |row.point.value|, PosPattern)
    ensures RowShape(row) == Ok(None)
  {
    SearchMisses(row.point.value, PosPattern);
  }

  /** A `gml` cell whose first coordinate list, after any text `pre`, is `content` gives the
      polygon of that list: nested GML elements before it do not matter. */
  lemma PolygonOfFirstList(row: DashRow, pre: string, content: string, rest: string)
    requires GroupText(content, true)
    requires row.gml == Some(pre + PosListOpen + content + PosListClose + rest)
    requires |pre| == 0 || NowhereBetween(row.gml.value, 0, |pre| - 1, PosListPattern)
    ensures RowShape(row) == match Ring(content)
      case Err(e) => Err(e)
      case Ok(ring) => Ok(Some(Polygon(ring)))
  {
    var s := row.gml.value;
    var tag := PosListOpen + content + PosListClose;
    assert HasAt(s, |pre|, tag) by {
      assert s == pre + tag + rest;
      assert s[|pre|..|pre| + |tag|] == tag;
    }
    assert OccursAt(s, |pre|, PosListPattern, [content]);
    SearchFindsFirst(s, |pre|, PosListPattern, [content]);
  }

  /** A polygon whose first list holds an odd number of well-formed coordinates aborts the
      map view with `IndexError`. */
  lemma OddPolygonAborts(row: DashRow, pre: string, content: string, rest: string)
    requires GroupText(content, true)
    requires row.gml == Some(pre + PosListOpen + content + PosListClose + rest)
    requires |pre| == 0 || NowhereBetween(row.gml.value, 0, |pre| - 1, PosListPattern)
    requires forall i :: 0 <= i < |Tokens(content)| ==> IsFloatLiteral(Tokens(content)[i])
    requires |Tokens(content)| % 2 == 1
    ensures RowShape(row) == Err(IndexError)
  {
    PolygonOfFirstList(row, pre, content, rest);
    OddCoordinates(content);
  }

  /** A point cell whose first `<gml:pos>`, after any text `pre`, holds two numbers separated
      by one space gives their marker when both are well formed, and `ValueError` otherwise. */
  lemma MarkerOfFirstPos(row: DashRow, pre: string, x: string, y: string, rest: string)
    requires row.gml.None?
    requires GroupText(x, false) && GroupText(y, false)
    requires row.point == Some(pre + PosOpen + x + " " + y + PosClose + rest)
    requires |pre| == 0 || NowhereBetween(row.point.value, 0, |pre| - 1, PosPattern)
    ensures IsFloatLiteral(x) && IsFloatLiteral(y) ==> RowShape(row) == Ok(Some(Marker(x, y)))
    ensures !(IsFloatLiteral(x) && IsFloatLiteral(y)) ==> RowShape(row) == Err(ValueError)
  {
    var s := row.point.value;
    var tag := PosOpen + x + " " + y + PosClose;
    assert HasAt(s, |pre|, tag) by {
      assert s == pre + tag + rest;
      assert s[|pre|..|pre| + |tag|] == tag;
    }
    assert OccursAt(s, |pre|, PosPattern, [x, y]);
    SearchFindsFirst(s, |pre|, PosPattern, [x, y]);
  }

  /** One more row of the map loop after the rows so far: nothing happens after an error. */
  function Then(sofar: Result<seq<Shape>, MapError>, row: DashRow): (r: Result<seq<Shape>, MapError>)
    ensures sofar.Err? ==> r == sofar
    ensures r.Ok? ==> sofar.Ok? && |sofar.value| <= |r.value| <= |sofar.value| + 1
  {
    match sofar
    case Err(e) => Err(e)
    case Ok(shapes) =>
      match RowShape(row)
      case Err(e) => Err(e)
      case Ok(None) => Ok(shapes)
      case Ok(Some(shape)) => Ok(shapes + [shape])
  }

  /** The shapes of the map loop over `rows`, in order, or the first error raised; the loop
      stops there, so no later row matters. Defined from the last row back. */
  function ShapesOf(rows: seq<DashRow>): (r: Result<seq<Shape>, MapError>)
    ensures r.Ok? ==> |r.value| <= |rows|
  {
    if rows == [] then Ok([]) else Then(ShapesOf(rows[..|rows| - 1]), rows[|rows| - 1])
  }

  /** The outcome of two stretches of the loop run one after the other. */
  function Combine(first: Result<seq<Shape>, MapError>, second: Result<seq<Shape>, MapError>): Result<seq<Shape>, MapError>
  {
    match first
    case Err(e) => Err(e)
    case Ok(a) =>
      match second
      case Err(e) => Err(e)
      case Ok(b) => Ok(a + b)
  }

  /** `df.head(MAX_DISPLAY_RECORDS)`: the rows the map looks at. */
  function MapRows(frame: seq<DashRow>): (rows: seq<DashRow>)
    ensures |rows| <= MaxDisplayRecords
    ensures |rows| <= |frame| && rows == frame[..|rows|]
    ensures |rows| == |frame| || |rows| == MaxDisplayRecords
  {
    if |frame| <= MaxDisplayRecords then frame else frame[..MaxDisplayRecords]
  }

  /** An error in a prefix is the error of the whole loop. */
  lemma {:induction false} ErrorPersists(rows: seq<DashRow>, k: nat)
    requires k <= |rows| && ShapesOf(rows[..k]).Err?
    ensures ShapesOf(rows) == ShapesOf(rows[..k])
    decreases |rows| - k
  {
    if k < |rows| {
      assert rows[..k + 1][..k] == rows[..k];
      ErrorPersists(rows, k + 1);
    } else {
      assert rows[..k] == rows;
    }
  }

  lemma ThenCombine(first: Result<seq<Shape>, MapError>, second: Result<seq<Shape>, MapError>, row: DashRow)
    ensures Then(Combine(first, second), row) == Combine(first, Then(second, row))
  {
    if first.Ok? && second.Ok? && RowShape(row).Ok? && RowShape(row).value.Some? {
      assert first.value + second.value + [RowShape(row).value.value]
          == first.value + (second.value + [RowShape(row).value.value]);
    }
  }

  /** Running the loop over two stretches of rows: the shapes of the first followed by the
      shapes of the second, unless one of them raised, the first error winning. */
  lemma {:induction false} ShapesAppend(a: seq<DashRow>, b: seq<DashRow>)
    ensures ShapesOf(a + b) == Combine(ShapesOf(a), ShapesOf(b))
  {
    if b == [] {
      assert a + b == a;
      if ShapesOf(a).Ok? {
        assert ShapesOf(a).value + [] == ShapesOf(a).value;
      }
    } else {
      var c := b[..|b| - 1];
      assert (a + b)[..|a + b| - 1] == a + c;
      assert (a + b)[|a + b| - 1] == b[|b| - 1];
      ShapesAppend(a, c);
      ThenCombine(ShapesOf(a), ShapesOf(c), b[|b| - 1]);
    }
  }

  /** `display_map_view`: walks the first `MAX_DISPLAY_RECORDS` rows in frame order, adding
      one shape per row whose geometry matches; an error leaves the loop at once. */
  method DisplayMapView(frame: seq<DashRow>) returns (result: Result<seq<Shape>, MapError>)
    ensures result == ShapesOf(MapRows(frame))
  {
    var rows := MapRows(frame);
    var shapes: seq<Shape> := [];
    var i := 0;
    while i < |rows|
      invariant 0 <= i <= |rows|
      invariant ShapesOf(rows[..i]) == Ok(shapes)
    {
      assert ShapesOf(rows[..i + 1]) == Then(Ok(shapes), rows[i]) by {
        assert rows[..i + 1][..i] == rows[..i];
      }
      var next := Then(Ok(shapes), rows[i]);
      if next.Err? {
        ErrorPersists(rows, i + 1);
        return next;
      }
      shapes := next.value;
      i := i + 1;
    }
    assert rows[..i] == rows;
    result := Ok(shapes);
  }

  /** The map draws at most `MAX_DISPLAY_RECORDS` shapes, and rows past that many never
      influence it, not even by raising. */
  lemma DisplayCap(frame: seq<DashRow>, extra: seq<DashRow>)
    ensures ShapesOf(MapRows(frame)).Ok? ==> |ShapesOf(MapRows(frame)).value| <= MaxDisplayRecords
    ensures |frame| >= MaxDisplayRecords ==> MapRows(frame + extra) == MapRows(frame)
  {
    if |frame| >= MaxDisplayRecords {
      assert (frame + extra)[..MaxDisplayRecords] == frame[..MaxDisplayRecords];
    }
  }
}
