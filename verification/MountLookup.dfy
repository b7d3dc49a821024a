/** The lookup of the block device behind a path in the contents of /proc/mounts. */
module MountLookup {
  import opened Common

  /** std::find over positions from, ..., end - 1: the first hit, or end. */
  function FindChar(s: string, from: nat, end: nat, c: char): (r: nat)
    requires from <= end <= |s|
    ensures from <= r <= end
    ensures forall j :: from <= j < r ==> s[j] != c
    ensures r < end ==> s[r] == c
    decreases end - from
  {
    if from == end || s[from] == c then from else FindChar(s, from + 1, end, c)
  }

  // ----- What the table means ------------------------------------------------------------------

  datatype Mount = Mount(device: string, point: string)

  /** A line, without its newline: a device and a mount point, each ended by a space, and no escapes. */
  function ParseLine(line: string): Option<Mount> {
    var d := FindChar(line, 0, |line|, ' ');
    if d == |line| then None
    else
      var p := FindChar(line, d + 1, |line|, ' ');
      if p == |line| || FindChar(line, 0, p, '\\') != p then None
      else Some(Mount(line[..d], line[d + 1..p]))
  }

  function ParseTable(text: string): Option<seq<Mount>> {
    if text == "" then Some([])
    else
      var e := FindChar(text, 0, |text|, '\n');
      if e == |text| then None
      else
        match (ParseLine(text[..e]), ParseTable(text[e + 1..]))
        case (Some(m), Some(rest)) => Some([m] + rest)
        case _ => None
  }

  /** A mount as the kernel prints it, with its remaining columns. */
  datatype Entry = Entry(mount: Mount, rest: string)

  predicate Free(s: string, bad: set<char>) {
    forall i :: 0 <= i < |s| ==> s[i] !in bad
  }

  predicate Printable(e: Entry) {
    Free(e.mount.device, {' ', '\n', '\\'}) && Free(e.mount.point, {' ', '\n', '\\'}) && Free(e.rest, {'\n'})
  }

  function PrintLine(e: Entry): string {
    e.mount.device + " " + e.mount.point + " " + e.rest
  }

  function PrintTable(es: seq<Entry>): string {
    if es == [] then "" else PrintLine(es[0]) + "\n" + PrintTable(es[1..])
  }

  function Mounts(es: seq<Entry>): seq<Mount> {
    if es == [] then [] else [es[0].mount] + Mounts(es[1..])
  }

  lemma FindCharAt(s: string, from: nat, end: nat, c: char, at: nat)
    requires from <= at < end <= |s| && s[at] == c
    requires forall j :: from <= j < at ==> s[j] != c
    ensures FindChar(s, from, end, c) == at
  {
  }

  lemma ParsePrintedLine(e: Entry)
    requires Printable(e)
    ensures ParseLine(PrintLine(e)) == Some(e.mount)
    ensures Free(PrintLine(e), {'\n'})
  {
    hide FindChar;
    var line := PrintLine(e);
    var d := |e.mount.device|;
    var p := d + 1 + |e.mount.point|;
    assert line[..d] == e.mount.device && line[d + 1..p] == e.mount.point && line[p + 1..] == e.rest;
    assert line[d] == ' ' && line[p] == ' ';
    assert forall j :: 0 <= j < d ==> line[j] == e.mount.device[j];
    assert forall j :: d < j < p ==> line[j] == e.mount.point[j - d - 1];
    assert forall j :: p < j < |line| ==> line[j] == e.rest[j - p - 1];
    FindCharAt(line, 0, |line|, ' ', d);
    FindCharAt(line, d + 1, |line|, ' ', p);
  }

  /** Parsing is a left inverse of printing. */
  lemma {:induction false} ParsePrinted(es: seq<Entry>)
    requires forall e :: e in es ==> Printable(e)
    ensures ParseTable(PrintTable(es)) == Some(Mounts(es))
  {
    if es != [] {
      hide FindChar, ParseLine, Printable;
      var line, text, rest := PrintLine(es[0]), PrintTable(es), PrintTable(es[1..]);
      ParsePrintedLine(es[0]);
      ParsePrinted(es[1..]);
      assert text == line + "\n" + rest;
      assert forall j :: 0 <= j < |line| ==> text[j] == line[j];
      FindCharAt(text, 0, |text|, '\n', |line|);
      assert text[..|line|] == line && text[|line| + 1..] == rest;
    }
  }

  /** A line that parses is a printed one. */
  lemma ParsedLineIsPrinted(line: string) returns (e: Entry)
    requires ParseLine(line).Some? && Free(line, {'\n'})
    ensures Printable(e) && line == PrintLine(e) && ParseLine(line) == Some(e.mount)
  {
    hide FindChar;
    var d := FindChar(line, 0, |line|, ' ');
    var p := FindChar(line, d + 1, |line|, ' ');
    var b := FindChar(line, 0, p, '\\');
    e := Entry(Mount(line[..d], line[d + 1..p]), line[p + 1..]);
    assert forall j :: 0 <= j < p ==> line[j] != '\\';
    assert line == line[..d] + " " + line[d + 1..p] + " " + line[p + 1..];
  }

  lemma {:induction false} ParsedTableIsPrinted(text: string) returns (es: seq<Entry>)
    requires ParseTable(text).Some?
    ensures (forall e :: e in es ==> Printable(e)) && text == PrintTable(es)
  {
    es := [];
    if text != "" {
      hide FindChar, ParseLine, Printable, PrintLine;
      var n := FindChar(text, 0, |text|, '\n');
      var line, tail := text[..n], text[n + 1..];
      assert text == line + "\n" + tail;
      var e := ParsedLineIsPrinted(line);
      var rest := ParsedTableIsPrinted(tail);
      es := [e] + rest;
      assert es[0] == e && es[1..] == rest;
      assert PrintTable(es) == line + "\n" + tail;
    }
  }

  /** The text is a printed table of these mounts. */
  ghost predicate ListsMounts(text: string, ms: seq<Mount>) {
    exists es :: (forall e :: e in es ==> Printable(e)) && text == PrintTable(es) && ms == Mounts(es)
  }

  /** A table parses if and only if it is what some mounts print as; it then parses into those mounts. */
  lemma ParsesIffPrinted(text: string, ms: seq<Mount>)
    ensures ParseTable(text) == Some(ms) <==> ListsMounts(text, ms)
  {
    if ParseTable(text).Some? {
      var es := ParsedTableIsPrinted(text);
      ParsePrinted(es);
    }
    if es :| (forall e :: e in es ==> Printable(e)) && text == PrintTable(es) && ms == Mounts(es) {
      ParsePrinted(es);
    }
  }

  /** The path lies below the mount point. */
  predicate Covers(m: Mount, path: string) {
    0 < |m.point| < |path| && m.point <= path && path[|m.point|] == '/'
  }

  /** Entry i is the first of those with the longest mount point above the path. */
  ghost predicate IsBest(ms: seq<Mount>, path: string, i: nat) {
    && i < |ms| && Covers(ms[i], path)
    && (forall j :: 0 <= j < |ms| && Covers(ms[j], path) ==> |ms[j].point| <= |ms[i].point|)
    && (forall j :: 0 <= j < i && Covers(ms[j], path) ==> |ms[j].point| < |ms[i].point|)
  }

  ghost predicate IsBestDevice(ms: seq<Mount>, path: string, device: string) {
    exists i: nat :: IsBest(ms, path, i) && device == ms[i].device
  }

  ghost predicate NoneCovers(ms: seq<Mount>, path: string) {
    forall j :: 0 <= j < |ms| ==> !Covers(ms[j], path)
  }

  /** Lying below a mount point is going on from it with a slash. */
  lemma CoversIffBelow(m: Mount, path: string)
    ensures Covers(m, path) <==> m.point != "" && exists rest: string :: path == m.point + "/" + rest
  {
    if Covers(m, path) {
      assert path == m.point + "/" + path[|m.point| + 1..];
    }
  }

  /** No mount point above the path is longer than the one chosen, and an equal one comes later in the table. */
  lemma BestIsLongest(ms: seq<Mount>, path: string, i: nat, j: nat, rest: string)
    requires IsBest(ms, path, i) && j < |ms| && ms[j].point != "" && path == ms[j].point + "/" + rest
    ensures |ms[j].point| < |ms[i].point| || (ms[j].point == ms[i].point && i <= j)
  {
    CoversIffBelow(ms[j], path);
    assert ms[j].point == path[..|ms[j].point|] && ms[i].point == path[..|ms[i].point|];
  }

  /** The root mount never covers a normalised path: its mount point would need a second slash after it. */
  lemma RootCoversOnlyDoubleSlash(device: string, path: string)
    ensures Covers(Mount(device, "/"), path) <==> |path| >= 2 && path[0] == '/' && path[1] == '/'
  {
  }

  // ----- The loop ------------------------------------------------------------------------------

  /** What the table is, given what has been parsed and the text that is left. */
  function Continued(parsed: seq<Mount>, text: string): Option<seq<Mount>> {
    match ParseTable(text)
    case None => None
    case Some(rest) => Some(parsed + rest)
  }

  /** The positions found in the whole text are those found in the line. */
  lemma FindInSlice(s: string, lo: nat, hi: nat, from: nat, end: nat, c: char)
    requires lo <= from <= end <= hi <= |s|
    ensures FindChar(s[lo..hi], from - lo, end - lo, c) == FindChar(s, from, end, c) - lo
  {
    var r := FindChar(s, from, end, c);
    if r < end {
      FindCharAt(s[lo..hi], from - lo, end - lo, c, r - lo);
    }
  }

  lemma SliceOfSlice(s: string, lo: nat, hi: nat, a: nat, b: nat)
    requires lo <= a <= b <= hi <= |s|
    ensures s[lo..hi][a - lo..b - lo] == s[a..b]
  {
    forall k | 0 <= k < b - a
      ensures s[lo..hi][a - lo..b - lo][k] == s[a..b][k]
    {
      assert s[lo..hi][a - lo + k] == s[a + k];
    }
  }

  /** The running choice is right for one line more. */
  lemma ExtendBest(parsed: seq<Mount>, m: Mount, path: string, prefix: nat, best: nat)
    requires prefix == 0 ==> NoneCovers(parsed, path)
    requires prefix > 0 ==> IsBest(parsed, path, best) && prefix == |parsed[best].point|
    ensures Covers(m, path) && |m.point| > prefix ==> IsBest(parsed + [m], path, |parsed|)
    ensures !(Covers(m, path) && |m.point| > prefix) && prefix == 0 ==> NoneCovers(parsed + [m], path)
    ensures !(Covers(m, path) && |m.point| > prefix) && prefix > 0 ==> IsBest(parsed + [m], path, best)
  {
  }

  lemma NextLine(mounts: string, begin: nat, parsed: seq<Mount>)
    requires begin < |mounts|
    ensures var e := FindChar(mounts, begin, |mounts|, '\n');
      Continued(parsed, mounts[begin..])
      == if e == |mounts| then None
         else match ParseLine(mounts[begin..e])
              case None => None
              case Some(m) => Continued(parsed + [m], mounts[e + 1..])
  {
    hide FindChar, ParseLine;
    var text, e := mounts[begin..], FindChar(mounts, begin, |mounts|, '\n');
    assert text == mounts[begin..|mounts|];
    FindInSlice(mounts, begin, |mounts|, begin, |mounts|, '\n');
    if e < |mounts| {
      assert text[..e - begin] == mounts[begin..e] && text[e - begin + 1..] == mounts[e + 1..];
      if ParseLine(mounts[begin..e]).Some? && ParseTable(mounts[e + 1..]).Some? {
        var m, rest := ParseLine(mounts[begin..e]).value, ParseTable(mounts[e + 1..]).value;
        assert parsed + ([m] + rest) == (parsed + [m]) + rest;
      }
    }
  }

  /** The fields of the line at begin, found in place. */
  lemma LineFields(mounts: string, begin: nat, e: nat)
    requires begin <= e <= |mounts|
    ensures var d := FindChar(mounts, begin, e, ' ');
      var p := if d < e then FindChar(mounts, d + 1, e, ' ') else e;
      ParseLine(mounts[begin..e])
      == if d == e || p == e || FindChar(mounts, begin, p, '\\') != p then None
         else Some(Mount(mounts[begin..d], mounts[d + 1..p]))
  {
    hide FindChar;
    var line, d := mounts[begin..e], FindChar(mounts, begin, e, ' ');
    FindInSlice(mounts, begin, e, begin, e, ' ');
    if d < e {
      var p := FindChar(mounts, d + 1, e, ' ');
      FindInSlice(mounts, begin, e, d + 1, e, ' ');
      FindInSlice(mounts, begin, e, begin, p, '\\');
      SliceOfSlice(mounts, begin, e, begin, d);
      SliceOfSlice(mounts, begin, e, d + 1, p);
    }
  }

  /**
   find_block_device_for_path succeeds if and only if the text is a table of mounts, one of which lies above
   the path, and then gives the device of the first line with the longest such mount point.
   */
  method FindBlockDeviceForPath(mounts: string, path: string) returns (rc: int, blockDevice: string)
    ensures rc == 0 || rc == -1
    ensures rc == 0 <==> exists ms :: ListsMounts(mounts, ms) && !NoneCovers(ms, path)
    ensures forall ms :: rc == 0 && ListsMounts(mounts, ms) ==> IsBestDevice(ms, path, blockDevice)
  {
    hide ParseTable, ParseLine, Continued, FindChar, IsBest, IsBestDevice, NoneCovers, Covers, ListsMounts;
    var lineBegin, bestPrefix := 0, 0;
    blockDevice := "";
    ghost var parsed: seq<Mount>, best: nat := [], 0;
    assert mounts[0..] == mounts;
    WholeText(mounts);
    while lineBegin != |mounts|
      invariant lineBegin <= |mounts|
      invariant ParseTable(mounts) == Continued(parsed, mounts[lineBegin..])
      invariant bestPrefix == 0 ==> NoneCovers(parsed, path)
      invariant bestPrefix > 0 ==> best < |parsed| && IsBest(parsed, path, best)
      invariant bestPrefix > 0 ==> bestPrefix == |parsed[best].point| && blockDevice == parsed[best].device
      decreases |mounts| - lineBegin
    {
      NextLine(mounts, lineBegin, parsed);
      var lineEnd := FindChar(mounts, lineBegin, |mounts|, '\n');
      if lineEnd == |mounts| {
        break;
      }
      LineFields(mounts, lineBegin, lineEnd);
      var deviceEnd := FindChar(mounts, lineBegin, lineEnd, ' ');
      if deviceEnd == lineEnd {
        break;
      }
      var mountpointEnd := FindChar(mounts, deviceEnd + 1, lineEnd, ' ');
      if mountpointEnd == lineEnd {
        break;
      }
      if FindChar(mounts, lineBegin, mountpointEnd, '\\') != mountpointEnd {
        break;
      }
      ghost var m := Mount(mounts[lineBegin..deviceEnd], mounts[deviceEnd + 1..mountpointEnd]);
      ghost var previous, previousBest := bestPrefix, best;
      var mountpointLen := mountpointEnd - (deviceEnd + 1);
      if mountpointLen > bestPrefix && mountpointLen < |path| && path[mountpointLen] == '/'
         && mounts[deviceEnd + 1..mountpointEnd] == path[..mountpointLen] {
        blockDevice := mounts[lineBegin..deviceEnd];
        bestPrefix := mountpointLen;
        best := |parsed|;
      }
      CoversInPlace(m, path);
      ExtendBest(parsed, m, path, previous, previousBest);
      parsed := parsed + [m];
      lineBegin := lineEnd + 1;
    }
    AllTables(mounts);
    if lineBegin != |mounts| {
      return -1, blockDevice;
    }
    assert mounts[lineBegin..] == "";
    NoMoreText(parsed);
    BestRefutesNone(parsed, path, best);
    if bestPrefix == 0 {
      return -1, blockDevice;
    }
    return 0, blockDevice;
  }

  lemma AllTables(mounts: string)
    ensures forall ms :: ListsMounts(mounts, ms) <==> ParseTable(mounts) == Some(ms)
  {
    hide ListsMounts, ParseTable;
    forall ms
      ensures ListsMounts(mounts, ms) <==> ParseTable(mounts) == Some(ms)
    {
      ParsesIffPrinted(mounts, ms);
    }
  }

  /** The test on the mount point where it stands in the text. */
  lemma CoversInPlace(m: Mount, path: string)
    ensures Covers(m, path)
       <==> 0 < |m.point| < |path| && path[|m.point|] == '/' && m.point == path[..|m.point|]
  {
  }

  lemma BestRefutesNone(ms: seq<Mount>, path: string, i: nat)
    ensures IsBest(ms, path, i) ==> !NoneCovers(ms, path)
    ensures IsBest(ms, path, i) ==> i < |ms| && IsBestDevice(ms, path, ms[i].device)
  {
  }

  lemma WholeText(mounts: string)
    ensures Continued([], mounts) == ParseTable(mounts)
    ensures forall path :: NoneCovers([], path)
  {
    if ParseTable(mounts).Some? {
      assert [] + ParseTable(mounts).value == ParseTable(mounts).value;
    }
  }

  lemma NoMoreText(parsed: seq<Mount>)
    ensures Continued(parsed, "") == Some(parsed)
  {
    assert parsed + [] == parsed;
  }
}
