/**
 * The map-file validator: it reads the file line by line and returns 0 when
 * the file is well formed, or the 1-based number of the first line that
 * breaks a rule.
 *
 * The layout it checks: line 1 holds a positive POI count n; lines 2..n+1
 * hold one POI each (id, name, latitude, longitude, tab separated); line n+2
 * holds a positive road count m; lines n+3..n+m+2 hold one road each (from
 * id, to id, distance, latitude, longitude, name). A file that ends early
 * fails at the line after its last one. Lines after the last road are not
 * read.
 *
 * The input is the sequence of lines as the line reader delivers them,
 * without their newline. The field scanner of the C library is a parameter
 * (Scanner): only what its results mean is modelled, not how it tokenises.
 */
module Validator {
  import opened Wrappers

  /** A value scanned with %lf: a real number, or the IEEE not-a-number. */
  datatype Double = Finite(value: real) | NaN

  /** The four fields of a POI line. */
  datatype PoiFields = PoiFields(id: string, name: string, latitude: Double, longitude: Double)

  /** The six fields of a road line. */
  datatype RoadFields = RoadFields(fromId: string, toId: string, distance: Double,
                                   latitude: Double, longitude: Double, name: string)

  /**
   * The three scans the validator and the loader apply to a line: "%d" for a
   * count line, the 4-field POI format and the 6-field road format. Each
   * gives None when fewer fields than the format names could be scanned.
   */
  datatype Scanner = Scanner(count: string -> Option<int>,
                             poi: string -> Option<PoiFields>,
                             road: string -> Option<RoadFields>)

  // ---------------------------------------------------------------------------
  // Rules for a single line
  // ---------------------------------------------------------------------------

  predicate IsDigit(c: char)
  {
    '0' <= c <= '9'
  }

  /** The rule for ids: a non-empty string of decimal digits. */
  predicate AllDigits(s: string)
  {
    |s| > 0 && forall i :: 0 <= i < |s| ==> IsDigit(s[i])
  }

  /** is_all_digits: an empty string is refused, then every character is checked in turn. */
  method IsAllDigits(s: string) returns (b: bool)
    ensures b <==> AllDigits(s)
  {
    if |s| == 0 {
      return false;
    }
    var i := 0;
    while i < |s|
      invariant 0 <= i <= |s|
      invariant forall j :: 0 <= j < i ==> IsDigit(s[j])
    {
      if !IsDigit(s[i]) {
        return false;
      }
      i := i + 1;
    }
    return true;
  }

  /** `d < lo || d > hi` in IEEE arithmetic: every comparison with NaN is false. */
  predicate OutOfRange(d: Double, lo: real, hi: real)
  {
    match d
    case NaN => false
    case Finite(v) => v < lo || v > hi
  }

  /** A count line passes when "%d" scans a positive number. */
  function PositiveCount(sc: Scanner, line: string): Option<nat>
  {
    match sc.count(line)
    case Some(n) => if n > 0 then Some(n) else None
    case None => None
  }

  /** A POI line fails when it is blank, short of fields, has a bad id, an empty name or a coordinate out of range. */
  predicate PoiLineFails(sc: Scanner, line: string)
  {
    || |line| == 0
    || sc.poi(line).None?
    || !AllDigits(sc.poi(line).value.id)
    || |sc.poi(line).value.name| == 0
    || OutOfRange(sc.poi(line).value.latitude, -90.0, 90.0)
    || OutOfRange(sc.poi(line).value.longitude, -180.0, 180.0)
  }

  /** A road line fails when it is blank, short of fields, has a bad id or an empty name. */
  predicate RoadLineFails(sc: Scanner, line: string)
  {
    || |line| == 0
    || sc.road(line).None?
    || !AllDigits(sc.road(line).value.fromId)
    || !AllDigits(sc.road(line).value.toId)
    || |sc.road(line).value.name| == 0
  }

  // ---------------------------------------------------------------------------
  // Rules for a whole file
  // ---------------------------------------------------------------------------

  /**
   * Line L (1-based) breaks the rule its place in the layout gives it; a line
   * the layout asks for but the file does not have breaks it too. Lines the
   * layout does not reach never fail.
   */
  predicate LineFails(lines: seq<string>, sc: Scanner, L: nat)
  {
    if L == 0 then false
    else if L == 1 then |lines| == 0 || PositiveCount(sc, lines[0]).None?
    else if |lines| == 0 || PositiveCount(sc, lines[0]).None? then false
    else
      var n := PositiveCount(sc, lines[0]).value;
      if L <= n + 1 then L > |lines| || PoiLineFails(sc, lines[L - 1])
      else if L == n + 2 then L > |lines| || PositiveCount(sc, lines[L - 1]).None?
      else if |lines| < n + 2 || PositiveCount(sc, lines[n + 1]).None? then false
      else L <= n + PositiveCount(sc, lines[n + 1]).value + 2 && (L > |lines| || RoadLineFails(sc, lines[L - 1]))
  }

  /** A well-formed file, section by section. */
  predicate Accepted(lines: seq<string>, sc: Scanner)
  {
    && |lines| >= 1
    && PositiveCount(sc, lines[0]).Some?
    && var n := PositiveCount(sc, lines[0]).value;
    && |lines| >= n + 2
    && (forall i {:trigger PoiLineFails(sc, lines[i])} :: 1 <= i <= n ==> !PoiLineFails(sc, lines[i]))
    && PositiveCount(sc, lines[n + 1]).Some?
    && var m := PositiveCount(sc, lines[n + 1]).value;
    && |lines| >= n + m + 2
    && (forall i {:trigger RoadLineFails(sc, lines[i])} :: n + 2 <= i < n + m + 2 ==> !RoadLineFails(sc, lines[i]))
  }

  /** The sections view and the line-by-line view of a well-formed file agree. */
  lemma AcceptedIffNoLineFails(lines: seq<string>, sc: Scanner)
    ensures Accepted(lines, sc) <==> forall L: nat :: !LineFails(lines, sc, L)
  {
    if Accepted(lines, sc) {
      forall L: nat ensures !LineFails(lines, sc, L) {
        var n := PositiveCount(sc, lines[0]).value;
        if 2 <= L <= n + 1 {
          assert !PoiLineFails(sc, lines[L - 1]);
        } else if L > n + 2 {
          var m := PositiveCount(sc, lines[n + 1]).value;
          if L <= n + m + 2 {
            assert !RoadLineFails(sc, lines[L - 1]);
          }
        }
      }
    } else if !LineFails(lines, sc, 1) {
      // The file is not accepted: exhibit a line that fails.
      var n := PositiveCount(sc, lines[0]).value;
      if |lines| < n + 2 {
        assert LineFails(lines, sc, |lines| + 1);
      } else if i :| 1 <= i <= n && PoiLineFails(sc, lines[i]) {
        assert LineFails(lines, sc, i + 1);
      } else if !LineFails(lines, sc, n + 2) {
        var m := PositiveCount(sc, lines[n + 1]).value;
        if |lines| < n + m + 2 {
          assert LineFails(lines, sc, |lines| + 1);
        } else {
          var i :| n + 2 <= i < n + m + 2 && RoadLineFails(sc, lines[i]);
          assert LineFails(lines, sc, i + 1);
        }
      }
    }
  }

  // ---------------------------------------------------------------------------
  // The validator
  // ---------------------------------------------------------------------------

  /**
   * validate: 0 when no line fails, otherwise the number of the first line
   * that fails. The number is at most one past the last line.
   */
  method Validate(lines: seq<string>, sc: Scanner) returns (r: nat)
    ensures r == 0 ==> forall L: nat :: !LineFails(lines, sc, L)
    ensures r != 0 ==> LineFails(lines, sc, r) && forall L: nat :: L < r ==> !LineFails(lines, sc, L)
    ensures r <= |lines| + 1
  {
    // The POI count.
    if |lines| == 0 {
      return 1;
    }
    var lineNum := 1;
    var nPoi := sc.count(lines[0]);
    if nPoi.None? {
      return lineNum;
    }
    if nPoi.value <= 0 {
      return lineNum;
    }
    var n := nPoi.value;

    // The POI section.
    var i := 0;
    while i < n
      invariant 0 <= i <= n && lineNum == 1 + i && lineNum <= |lines|
      invariant forall L: nat :: L <= lineNum ==> !LineFails(lines, sc, L)
    {
      if lineNum >= |lines| {
        return lineNum + 1;
      }
      var line := lines[lineNum];
      lineNum := lineNum + 1;
      if |line| == 0 {
        return lineNum;
      }
      var poi := sc.poi(line);
      if poi.None? {
        return lineNum;
      }
      var idOk := IsAllDigits(poi.value.id);
      if !idOk {
        return lineNum;
      }
      if |poi.value.name| == 0 {
        return lineNum;
      }
      if OutOfRange(poi.value.latitude, -90.0, 90.0) {
        return lineNum;
      }
      if OutOfRange(poi.value.longitude, -180.0, 180.0) {
        return lineNum;
      }
      i := i + 1;
    }

    // The road count.
    if lineNum >= |lines| {
      return lineNum + 1;
    }
    var countLine := lines[lineNum];
    lineNum := lineNum + 1;
    var nRoads := sc.count(countLine);
    if nRoads.None? {
      return lineNum;
    }
    if nRoads.value <= 0 {
      return lineNum;
    }
    var m := nRoads.value;

    // The road section.
    i := 0;
    while i < m
      invariant 0 <= i <= m && lineNum == n + 2 + i && lineNum <= |lines|
      invariant forall L: nat :: L <= lineNum ==> !LineFails(lines, sc, L)
    {
      if lineNum >= |lines| {
        return lineNum + 1;
      }
      var line := lines[lineNum];
      lineNum := lineNum + 1;
      if |line| == 0 {
        return lineNum;
      }
      var road := sc.road(line);
      if road.None? {
        return lineNum;
      }
      var fromOk := IsAllDigits(road.value.fromId);
      var toOk := IsAllDigits(road.value.toId);
      if !fromOk || !toOk {
        return lineNum;
      }
      if |road.value.name| == 0 {
        return lineNum;
      }
      i := i + 1;
    }
    return 0;
  }

  // ---------------------------------------------------------------------------
  // Consequences
  // ---------------------------------------------------------------------------

  /** Whether line L fails depends on lines 1..L only. */
  lemma LineFailsLocal(lines: seq<string>, other: seq<string>, sc: Scanner, L: nat)
    requires L <= |lines| && L <= |other| && lines[..L] == other[..L]
    ensures LineFails(lines, sc, L) <==> LineFails(other, sc, L)
  {
    if L >= 1 {
      assert lines[0] == lines[..L][0] && other[0] == other[..L][0];
      assert lines[L - 1] == lines[..L][L - 1] && other[L - 1] == other[..L][L - 1];
      if |lines| >= 1 && PositiveCount(sc, lines[0]).Some? {
        var n := PositiveCount(sc, lines[0]).value;
        if n + 2 < L {
          assert lines[n + 1] == lines[..L][n + 1] && other[n + 1] == other[..L][n + 1];
        }
      }
    }
  }

  /**
   * The verdict on a file that fails at line r (within the file) only
   * depends on its first r lines: any file sharing them fails at r too.
   */
  lemma FirstFailureOfPrefix(lines: seq<string>, other: seq<string>, sc: Scanner, r: nat)
    requires 1 <= r <= |lines| && r <= |other| && lines[..r] == other[..r]
    requires LineFails(lines, sc, r) && forall L: nat :: L < r ==> !LineFails(lines, sc, L)
    ensures LineFails(other, sc, r) && forall L: nat :: L < r ==> !LineFails(other, sc, L)
  {
    LineFailsLocal(lines, other, sc, r);
    forall L: nat | L < r ensures !LineFails(other, sc, L) {
      assert lines[..L] == lines[..r][..L] && other[..L] == other[..r][..L];
      LineFailsLocal(lines, other, sc, L);
    }
  }

  /** Lines after the last road are never read: appending to a well-formed file keeps it well formed. */
  lemma AcceptedIgnoresTrailingLines(lines: seq<string>, more: seq<string>, sc: Scanner)
    requires Accepted(lines, sc)
    ensures Accepted(lines + more, sc)
  {
    var all := lines + more;
    assert forall i :: 0 <= i < |lines| ==> all[i] == lines[i];
    var n := PositiveCount(sc, lines[0]).value;
    assert all[n + 1] == lines[n + 1];
  }

  /**
   * NaN passes the coordinate rule: every comparison with it is false. So a
   * file with no failing line still has none when one POI line is replaced by
   * a non-blank line that scans to the same id and name and to coordinates
   * that are each NaN or unchanged; `edited` is that file.
   */
  lemma NaNCoordinateStillValid(lines: seq<string>, sc: Scanner, p: nat, line: string, edited: seq<string>)
    requires forall L: nat :: !LineFails(lines, sc, L)
    requires |lines| >= 1 && PositiveCount(sc, lines[0]).Some?
    requires 1 <= p <= PositiveCount(sc, lines[0]).value && p < |lines|
    requires |line| > 0 && sc.poi(line).Some? && sc.poi(lines[p]).Some?
    requires var f, g := sc.poi(lines[p]).value, sc.poi(line).value;
      && g.id == f.id && g.name == f.name
      && (g.latitude.NaN? || g.latitude == f.latitude)
      && (g.longitude.NaN? || g.longitude == f.longitude)
    requires edited == lines[p := line]
    ensures forall L: nat :: !LineFails(edited, sc, L)
  {
    AcceptedIffNoLineFails(lines, sc);
    var ls := edited;
    var n := PositiveCount(sc, lines[0]).value;
    assert ls[0] == lines[0] && ls[n + 1] == lines[n + 1];
    assert !PoiLineFails(sc, lines[p]);
    assert !PoiLineFails(sc, ls[p]);
    AcceptedIffNoLineFails(ls, sc);
  }
}
