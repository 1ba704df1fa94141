/** ouioui/utils.py: validation of user override entries and parsing of the
    IEEE MA-L registry text into a prefix-to-organisation map. */
module Utils {
  import opened Wrappers
  import opened Text
  import opened Prefix
  import opened Sorting

  /** A `(prefix, organisation)` pair. */
  type Pair = (string, string)

  // ---------------------------------------------------------------------
  // Override entries (parse_custom_oui)
  // ---------------------------------------------------------------------

  /** The strict override regex: three upper-case hex pairs with an optional
      `:` or `-` between them and nothing else; on a match, the key `XX:XX:XX`. */
  function MatchStrict(p: string): (r: Option<string>)
    ensures r.Some? ==> IsCanonical(r.value)
  {
    var head := ParseHead(p);
    if head.Some? && head.value.1 == |p| then Some(head.value.0) else None
  }

  /** An override prefix is accepted exactly when it is a written form of a
      canonical key, and then it is normalised to that key: lower-case digits,
      other characters, fewer or more than six digits are all refused. */
  lemma StrictAcceptsExactly(p: string, k: string)
    ensures MatchStrict(p) == Some(k) <==> IsCanonical(k) && exists a, b :: p == Layout(k, a, b)
  {
    if MatchStrict(p) == Some(k) {
      var n := ParseHead(p).value.1;
      assert p[..n] == p;
    }
    if IsCanonical(k) && exists a, b :: p == Layout(k, a, b) {
      var a, b :| p == Layout(k, a, b);
      ParseHeadComplete(k, a, b, "");
      assert Layout(k, a, b) + "" == p;
    }
  }

  /** An accepted prefix is never shortened: a full MAC address is refused. */
  lemma StrictRefusesOtherLengths(p: string)
    requires |p| < 6 || |p| > 8
    ensures MatchStrict(p) == None
  {
    if MatchStrict(p).Some? {
      StrictAcceptsExactly(p, MatchStrict(p).value);
    }
  }

  /** Entry `e` is accepted and normalises to the pair `x`. */
  predicate Gives(e: Pair, x: Pair) {
    MatchStrict(e.0) == Some(x.0) && e.1 == x.1
  }

  /** What one entry adds to `valid_set`: its normalised pair, if it is accepted. */
  function Contribution(e: Pair): (c: set<Pair>)
    ensures forall x :: x in c <==> Gives(e, x)
  {
    match MatchStrict(e.0)
    case Some(k) => {(k, e.1)}
    case None => {}
  }

  /** The loop of parse_custom_oui: the normalised pairs of the accepted entries,
      organisation text unchanged. */
  function Accepted(entries: seq<Pair>): (r: set<Pair>)
    ensures forall x :: x in r ==> IsCanonical(x.0)
  {
    set e | e in entries && MatchStrict(e.0).Some? :: (MatchStrict(e.0).value, e.1)
  }

  /** A pair is kept exactly when some entry has a prefix normalising to its key
      and carries its organisation verbatim. */
  lemma AcceptedMembers(entries: seq<Pair>, x: Pair)
    ensures x in Accepted(entries) <==> exists i :: 0 <= i < |entries| && Gives(entries[i], x)
  {
    if x in Accepted(entries) {
      var e :| e in entries && MatchStrict(e.0).Some? && x == (MatchStrict(e.0).value, e.1);
      var i :| 0 <= i < |entries| && entries[i] == e;
      assert Gives(entries[i], x);
    }
  }

  /** One more entry adds its contribution and nothing else. */
  lemma AcceptedSnoc(entries: seq<Pair>, e: Pair)
    ensures Accepted(entries + [e]) == Accepted(entries) + Contribution(e)
  {
    forall x ensures x in Accepted(entries + [e]) <==> x in Accepted(entries) + Contribution(e) {
      AcceptedMembers(entries + [e], x);
      AcceptedMembers(entries, x);
      if exists i :: 0 <= i < |entries + [e]| && Gives((entries + [e])[i], x) {
        var i :| 0 <= i < |entries + [e]| && Gives((entries + [e])[i], x);
        if i < |entries| {
          assert Gives(entries[i], x);
        }
      }
      if exists i :: 0 <= i < |entries| && Gives(entries[i], x) {
        var i :| 0 <= i < |entries| && Gives(entries[i], x);
        assert Gives((entries + [e])[i], x);
      }
    }
  }

  lemma AcceptedStep(entries: seq<Pair>, i: nat)
    requires i < |entries|
    ensures Accepted(entries[..i + 1]) == Accepted(entries[..i]) + Contribution(entries[i])
  {
    assert entries[..i + 1] == entries[..i] + [entries[i]];
    AcceptedSnoc(entries[..i], entries[i]);
  }

  /** Python's `<` on `(str, str)` tuples. */
  predicate PairLess(a: Pair, b: Pair) {
    StrLess(a.0, b.0) || (a.0 == b.0 && StrLess(a.1, b.1))
  }

  lemma PairLessIsStrictTotalOrder()
    ensures IsStrictTotalOrder(PairLess)
  {
    forall x: Pair ensures !PairLess(x, x) {
      StrLessIrreflexive(x.0);
      StrLessIrreflexive(x.1);
    }
    forall x: Pair, y: Pair, z: Pair | PairLess(x, y) && PairLess(y, z) ensures PairLess(x, z) {
      if StrLess(x.0, y.0) && StrLess(y.0, z.0) {
        StrLessTransitive(x.0, y.0, z.0);
      } else if x.0 == y.0 && y.0 == z.0 {
        StrLessTransitive(x.1, y.1, z.1);
      }
    }
    forall x: Pair, y: Pair | x != y ensures PairLess(x, y) || PairLess(y, x) {
      if x.0 != y.0 {
        StrLessTotal(x.0, y.0);
      } else {
        StrLessTotal(x.1, y.1);
      }
    }
  }

  /** What parse_custom_oui returns: the accepted pairs in ascending
      `(prefix, organisation)` order, each once. */
  function CustomOui(entries: seq<Pair>): (r: seq<Pair>)
    ensures StrictlySorted(r, PairLess)
    ensures forall x :: x in r <==> x in Accepted(entries)
  {
    PairLessIsStrictTotalOrder();
    SortSet(Accepted(entries), PairLess)
  }

  /** `sorted` has one possible outcome: any ascending, duplicate-free listing
      of the accepted pairs is the list parse_custom_oui returns. */
  lemma CustomOuiIsTheSortedOrder(entries: seq<Pair>, s: seq<Pair>)
    requires StrictlySorted(s, PairLess)
    requires forall x :: x in s <==> x in Accepted(entries)
    ensures s == CustomOui(entries)
  {
    PairLessIsStrictTotalOrder();
    SortedUnique(s, CustomOui(entries), PairLess);
  }

  lemma StrLessIsStrictTotalOrder()
    ensures IsStrictTotalOrder(StrLess)
  {
    forall x: string ensures !StrLess(x, x) {
      StrLessIrreflexive(x);
    }
    forall x: string, y: string, z: string | StrLess(x, y) && StrLess(y, z) ensures StrLess(x, z) {
      StrLessTransitive(x, y, z);
    }
    forall x: string, y: string | x != y ensures StrLess(x, y) || StrLess(y, x) {
      StrLessTotal(x, y);
    }
  }

  /** parse_custom_oui: the accepted entries, normalised, deduplicated and sorted
      by `(prefix, organisation)`. */
  method ParseCustomOui(customOui: seq<Pair>) returns (sorted: seq<Pair>)
    ensures sorted == CustomOui(customOui)
    ensures StrictlySorted(sorted, PairLess)
    ensures forall x :: x in sorted <==> x in Accepted(customOui)
    ensures forall x :: x in sorted ==> IsCanonical(x.0)
    ensures |sorted| <= |customOui|
  {
    var validSet: set<Pair> := {};
    var i := 0;
    while i < |customOui|
      invariant 0 <= i <= |customOui|
      invariant validSet == Accepted(customOui[..i])
      invariant |validSet| <= i
    {
      var (prefix, manuf) := customOui[i];
      var m := MatchStrict(prefix);
      AcceptedStep(customOui, i);
      if m.Some? {
        assert Contribution(customOui[i]) == {(m.value, manuf)};
        validSet := validSet + {(m.value, manuf)};
      } else {
        assert Contribution(customOui[i]) == {};
      }
      i := i + 1;
    }
    assert customOui[..i] == customOui;
    PairLessIsStrictTotalOrder();
    sorted := SortSet(validSet, PairLess);
  }

  // ---------------------------------------------------------------------
  // Registry text (the parsing half of get_ieee_oui)
  // ---------------------------------------------------------------------

  /** Number of consecutive whitespace characters from position `i`. */
  function SpaceRun(s: string, i: nat): (n: nat)
    ensures i + n <= |s| || (i > |s| && n == 0)
    ensures forall j :: i <= j < i + n ==> IsSpace(s[j])
    ensures i + n < |s| ==> !IsSpace(s[i + n])
    decreases |s| - i
  {
    if i < |s| && IsSpace(s[i]) then 1 + SpaceRun(s, i + 1) else 0
  }

  /** Number of consecutive tab characters from position `i`. */
  function TabRun(s: string, i: nat): (n: nat)
    ensures i + n <= |s| || (i > |s| && n == 0)
    ensures forall j :: i <= j < i + n ==> s[j] == '\t'
    ensures i + n < |s| ==> s[i + n] != '\t'
    decreases |s| - i
  {
    if i < |s| && s[i] == '\t' then 1 + TabRun(s, i + 1) else 0
  }

  /** After `t` tabs from position `j`, 1 to 128 characters are left for
      `(.{1,128})$`. */
  predicate OrgFits(line: string, j: nat, t: nat) {
    1 <= |line| - (j + t) <= 128
  }

  /** `\t{1,5}(.{1,128})$` from position `j`, whose greedy tab count is tried
      first and then backtracked one tab at a time: the greatest tab count up
      to `k` that leaves 1 to 128 characters for the organisation, or none when
      no count does. */
  function TryTabs(line: string, j: nat, k: nat): (r: Option<nat>)
    requires 1 <= k && j + k <= |line|
    ensures r.Some? ==> 1 <= r.value <= k && OrgFits(line, j, r.value)
    ensures r.Some? ==> forall t :: r.value < t <= k ==> !OrgFits(line, j, t)
    ensures r.None? <==> forall t :: 1 <= t <= k ==> !OrgFits(line, j, t)
  {
    if OrgFits(line, j, k) then Some(k)
    else if k > 1 then TryTabs(line, j, k - 1)
    else None
  }

  /** How many of the organisation's own leading tabs the greedy `\t{1,5}`
      takes as well, after the `t` tabs that precede it: as many as the five
      allow, keeping at least one character for the capture. */
  function TabsTaken(org: string, t: nat): nat
    requires 1 <= |org| && t <= 5
  {
    Min(Min(TabRun(org, 0), 5 - t), |org| - 1)
  }

  function Min(a: nat, b: nat): nat {
    if a < b then a else b
  }

  /** `^([0-9A-F]{2})-([0-9A-F]{2})-([0-9A-F]{2})`: the hyphenated key at the
      start of the line. */
  predicate KeyAt(line: string) {
    |line| >= 8 && PairAt(line, 0) && line[2] == '-' && PairAt(line, 3) && line[5] == '-' && PairAt(line, 6)
  }

  /** `m[0]:m[1]:m[2]`, the key built from the three captures. */
  function KeyOf(line: string): string
    requires |line| >= 8
  {
    line[0..2] + ":" + line[3..5] + ":" + line[6..8]
  }

  /** `\s{1,10}\(hex\)` after the key: the position after `(hex)`. The
      whitespace run cannot give back characters, since `(` is not one. */
  function HexMarkerEnd(line: string): (r: Option<nat>)
    ensures r.Some? ==> r.value <= |line|
  {
    var w := SpaceRun(line, 8);
    if 1 <= w <= 10 && 8 + w + 5 <= |line| && line[8 + w..8 + w + 5] == "(hex)" then Some(8 + w + 5)
    else None
  }

  /** `\t{1,5}(.{1,128})$` from position `j`: where the organisation starts. */
  function OrgStart(line: string, j: nat): (r: Option<nat>)
    requires j <= |line|
    ensures r.Some? ==> j + 1 <= r.value && 1 <= |line| - r.value <= 128
  {
    var t := TabRun(line, j);
    if t == 0 then None
    else
      match TryTabs(line, j, Min(t, 5))
      case None => None
      case Some(tabs) => Some(j + tabs)
  }

  /** One line against
      `^([0-9A-F]{2})-([0-9A-F]{2})-([0-9A-F]{2})\s{1,10}\(hex\)\t{1,5}(.{1,128})$`:
      on a match, the key `m[0]:m[1]:m[2]` and the organisation `m[3]`. */
  function MatchRegistryLine(line: string): (r: Option<Pair>)
    ensures r.Some? ==> IsCanonical(r.value.0) && 1 <= |r.value.1| <= 128
  {
    if !KeyAt(line) then None
    else
      match HexMarkerEnd(line)
      case None => None
      case Some(j) =>
        match OrgStart(line, j)
        case None => None
        case Some(o) => Some((KeyOf(line), line[o..]))
  }

  /** The key `k` in the registry's hyphenated spelling `AA-BB-CC`. */
  function Dashed(k: string): string
    requires |k| == 8
  {
    k[0..2] + "-" + k[3..5] + "-" + k[6..8]
  }

  function Tabs(t: nat): (s: string)
    ensures |s| == t && forall i :: 0 <= i < t ==> s[i] == '\t'
  {
    if t == 0 then "" else Tabs(t - 1) + "\t"
  }

  predicate AllSpace(s: string) {
    forall i :: 0 <= i < |s| ==> IsSpace(s[i])
  }

  /** A registry record line: key, whitespace, `(hex)`, tabs, organisation. */
  function RecordLine(k: string, ws: string, t: nat, org: string): string
    requires |k| == 8
  {
    Dashed(k) + ws + "(hex)" + Tabs(t) + org
  }

  /** A matched line is a record line whose organisation runs to the end of the
      line, is 1 to 128 characters long and follows 1 to 5 tabs. */
  lemma RegistryLineSound(line: string)
    requires MatchRegistryLine(line).Some?
    ensures var (k, org) := MatchRegistryLine(line).value;
      IsCanonical(k) && 1 <= |org| <= 128 &&
      exists ws, t :: 1 <= |ws| <= 10 && AllSpace(ws) && 1 <= t <= 5 && line == RecordLine(k, ws, t, org)
  {
    MatchRegistryLineCases(line);
    var j := HexMarkerEnd(line).value;
    var o := OrgStart(line, j).value;
    var k, org := KeyOf(line), line[o..];
    KeyAtDashed(line);
    HexMarkerParts(line);
    OrgStartParts(line, j);
    RecordLineOfParts(line, k, line[8..j - 5], o - j, org, j - 5);
  }

  /** A matched line passed all three stages, and the match is the key of its
      head with the text after the tabs. */
  lemma MatchRegistryLineCases(line: string)
    requires MatchRegistryLine(line).Some?
    ensures KeyAt(line) && HexMarkerEnd(line).Some? && OrgStart(line, HexMarkerEnd(line).value).Some?
    ensures MatchRegistryLine(line).value == (KeyOf(line), line[OrgStart(line, HexMarkerEnd(line).value).value..])
  {
  }

  /** A line made of the parts of a record line is that record line. */
  lemma RecordLineOfParts(line: string, k: string, ws: string, t: nat, org: string, h: nat)
    requires |k| == 8 && 8 <= h && h + 5 + t <= |line|
    requires line[..8] == Dashed(k) && line[8..h] == ws && line[h..h + 5] == "(hex)"
    requires line[h + 5..h + 5 + t] == Tabs(t) && line[h + 5 + t..] == org
    ensures line == RecordLine(k, ws, t, org)
  {
    SplitAtParts(line, 8, h, h + 5, h + 5 + t);
  }

  /** The head of a matched line is the hyphenated spelling of its key. */
  lemma KeyAtDashed(line: string)
    requires KeyAt(line)
    ensures IsCanonical(KeyOf(line)) && line[..8] == Dashed(KeyOf(line))
  {
    var k := KeyOf(line);
    assert line[..8] == Dashed(k) by {
      assert k[0..2] == line[0..2] && k[3..5] == line[3..5] && k[6..8] == line[6..8];
    }
  }

  /** What the whitespace stage consumed: 1 to 10 whitespace characters, then
      `(hex)`. */
  lemma HexMarkerParts(line: string)
    requires HexMarkerEnd(line).Some?
    ensures var j := HexMarkerEnd(line).value;
      14 <= j && 1 <= |line[8..j - 5]| <= 10 && AllSpace(line[8..j - 5]) && line[j - 5..j] == "(hex)"
  {
    var w := SpaceRun(line, 8);
  }

  /** What the tab stage consumed: 1 to 5 tabs. */
  lemma OrgStartParts(line: string, j: nat)
    requires j <= |line| && OrgStart(line, j).Some?
    ensures var o := OrgStart(line, j).value;
      1 <= o - j <= 5 && line[j..o] == Tabs(o - j)
  {
    var t := TabRun(line, j);
    var o := OrgStart(line, j).value;
    assert o - j == TryTabs(line, j, Min(t, 5)).value;
    assert forall i :: 0 <= i < o - j ==> line[j..o][i] == line[j + i] == Tabs(o - j)[i];
  }

  /** A line is its five consecutive pieces. */
  lemma SplitAtParts(line: string, a: nat, b: nat, c: nat, d: nat)
    requires a <= b <= c <= d <= |line|
    ensures line == line[..a] + line[a..b] + line[b..c] + line[c..d] + line[d..]
  {
  }

  /** A line starting with the hyphenated key passes the head of the regex,
      and its three captures rebuild the key. */
  lemma DashedHead(k: string, line: string)
    requires IsCanonical(k)
    requires |line| >= 8 && line[..8] == Dashed(k)
    ensures KeyAt(line) && KeyOf(line) == k
  {
    assert forall i :: 0 <= i < 8 ==> line[i] == Dashed(k)[i];
    assert line[0..2] == k[0..2];
    assert line[3..5] == k[3..5];
    assert line[6..8] == k[6..8];
  }

  /** Where each part of a record line lies. */
  lemma RecordLineParts(k: string, ws: string, t: nat, org: string)
    requires |k| == 8
    ensures var line := RecordLine(k, ws, t, org); var h := 8 + |ws|;
      && |line| == h + 5 + t + |org|
      && line[..8] == Dashed(k)
      && line[8..h] == ws
      && line[h..h + 5] == "(hex)"
      && (forall j :: h + 5 <= j < h + 5 + t ==> line[j] == '\t')
      && line[h + 5 + t..] == org
  {
    var line := RecordLine(k, ws, t, org);
    var h := 8 + |ws|;
    var a := Dashed(k) + ws;
    var b := a + "(hex)";
    var c := b + Tabs(t);
    assert line == c + org;
    assert c[..|b|] == b;
    assert b[..|a|] == a;
    assert a[..8] == Dashed(k);
    assert line[..8] == Dashed(k);
    assert line[8..h] == a[8..h] == ws;
    assert line[h..h + 5] == b[h..h + 5] == "(hex)";
    assert forall j :: h + 5 <= j < h + 5 + t ==> line[j] == c[j] == Tabs(t)[j - (h + 5)];
  }

  /** In a record line the whitespace run is exactly `ws`, so `(hex)` is
      found after it. */
  lemma HexMarkerOfRecord(k: string, ws: string, t: nat, org: string)
    requires |k| == 8
    requires 1 <= |ws| <= 10 && AllSpace(ws)
    ensures HexMarkerEnd(RecordLine(k, ws, t, org)) == Some(8 + |ws| + 5)
  {
    RecordLineParts(k, ws, t, org);
    HexMarkerOfParts(RecordLine(k, ws, t, org), ws);
  }

  lemma HexMarkerOfParts(line: string, ws: string)
    requires 1 <= |ws| <= 10 && AllSpace(ws)
    requires 8 + |ws| + 5 <= |line| && line[8..8 + |ws|] == ws && line[8 + |ws|..8 + |ws| + 5] == "(hex)"
    ensures HexMarkerEnd(line) == Some(8 + |ws| + 5)
  {
    var h := 8 + |ws|;
    assert line[h] == line[h..h + 5][0] == '(';
    forall j | 8 <= j < h ensures IsSpace(line[j]) {
      assert line[j] == line[8..h][j - 8];
    }
    SpaceRunCount(line, 8, |ws|);
  }

  lemma {:induction false} SpaceRunCount(s: string, i: nat, n: nat)
    requires i + n < |s|
    requires forall j :: i <= j < i + n ==> IsSpace(s[j])
    requires !IsSpace(s[i + n])
    ensures SpaceRun(s, i) == n
    decreases n
  {
    if n > 0 {
      SpaceRunCount(s, i + 1, n - 1);
    }
  }

  lemma {:induction false} TabRunExact(s: string, i: nat, n: nat)
    requires i + n <= |s|
    requires forall j :: i <= j < i + n ==> s[j] == '\t'
    requires i + n == |s| || s[i + n] != '\t'
    ensures TabRun(s, i) == n
    decreases n
  {
    if n > 0 {
      TabRunExact(s, i + 1, n - 1);
    }
  }

  /** Every record line is matched under its key. The organisation captured is
      the record's own, less the leading tabs of it that the greedy `\t{1,5}`
      takes as well; so it is recovered verbatim when it does not start with a
      tab. */
  lemma RegistryLineComplete(k: string, ws: string, t: nat, org: string)
    requires IsCanonical(k)
    requires 1 <= |ws| <= 10 && AllSpace(ws)
    requires 1 <= t <= 5
    requires 1 <= |org| <= 128
    ensures MatchRegistryLine(RecordLine(k, ws, t, org)) == Some((k, org[TabsTaken(org, t)..]))
    ensures org[0] != '\t' ==> MatchRegistryLine(RecordLine(k, ws, t, org)) == Some((k, org))
  {
    RecordLineCaptures(k, ws, t, org);
    if org[0] != '\t' {
      assert TabsTaken(org, t) == 0;
      assert org[0..] == org;
    }
  }

  lemma RecordLineCaptures(k: string, ws: string, t: nat, org: string)
    requires IsCanonical(k)
    requires 1 <= |ws| <= 10 && AllSpace(ws)
    requires 1 <= t <= 5
    requires 1 <= |org| <= 128
    ensures MatchRegistryLine(RecordLine(k, ws, t, org)) == Some((k, org[TabsTaken(org, t)..]))
  {
    var line := RecordLine(k, ws, t, org);
    var j := 8 + |ws| + 5;
    RecordLineParts(k, ws, t, org);
    HexMarkerOfRecord(k, ws, t, org);
    DashedHead(k, line);
    CapturesOfStages(line, k, j, t, org);
  }

  /** A line whose head, `(hex)` marker and tabs are in place is matched with
      the organisation less the tabs the greedy count takes from it. */
  lemma CapturesOfStages(line: string, k: string, j: nat, t: nat, org: string)
    requires 1 <= t <= 5 && 1 <= |org| <= 128
    requires KeyAt(line) && KeyOf(line) == k && HexMarkerEnd(line) == Some(j)
    requires |line| == j + t + |org| && line[j + t..] == org
    requires forall i :: j <= i < j + t ==> line[i] == '\t'
    ensures MatchRegistryLine(line) == Some((k, org[TabsTaken(org, t)..]))
  {
    OrgStartOfRecord(line, j, t, org);
    var c := TabsTaken(org, t);
    assert line[j + t + c..] == org[c..];
    MatchRegistryLineStages(line, j, j + t + c);
  }

  /** A line passing all three stages is matched with the key of its head and
      the text after the tabs. */
  lemma MatchRegistryLineStages(line: string, j: nat, o: nat)
    requires KeyAt(line) && HexMarkerEnd(line) == Some(j) && OrgStart(line, j) == Some(o)
    ensures MatchRegistryLine(line) == Some((KeyOf(line), line[o..]))
  {
  }

  /** Tabs then an organisation of 1 to 128 characters pass the tab stage, and
      the organisation starts after the tabs the greedy count takes. */
  lemma OrgStartOfRecord(line: string, j: nat, t: nat, org: string)
    requires 1 <= t <= 5 && 1 <= |org| <= 128
    requires |line| == j + t + |org| && line[j + t..] == org
    requires forall i :: j <= i < j + t ==> line[i] == '\t'
    ensures OrgStart(line, j) == Some(j + t + TabsTaken(org, t))
  {
    var lead := TabRun(org, 0);
    forall i | j + t <= i < j + t + lead ensures line[i] == '\t' {
      assert line[i] == org[i - (j + t)];
    }
    if lead < |org| {
      assert line[j + t + lead] == org[lead];
    }
    TabRunExact(line, j, t + lead);
    var c := t + TabsTaken(org, t);
    assert OrgFits(line, j, c);
  }

  /** An organisation longer than 128 characters is not truncated: the line is
      dropped. */
  lemma RegistryLineTooLong(k: string, ws: string, t: nat, org: string)
    requires |k| == 8 && 1 <= |ws| <= 10 && AllSpace(ws)
    requires 1 <= t && |org| > 128 && org[0] != '\t'
    ensures MatchRegistryLine(RecordLine(k, ws, t, org)) == None
  {
    var line := RecordLine(k, ws, t, org);
    var j := 8 + |ws| + 5;
    RecordLineParts(k, ws, t, org);
    HexMarkerOfRecord(k, ws, t, org);
    assert line[j + t] == org[0];
    TabRunExact(line, j, t);
  }

  /** `re.findall(pattern, text, re.MULTILINE)` for a pattern anchored at
      both ends of a line, with `f` matching one line: the captures of the
      lines that match, in text order, duplicates included. */
  function FindAll(f: string -> Option<Pair>, lines: seq<string>): (r: seq<Pair>)
    ensures |r| <= |lines|
  {
    if |lines| == 0 then []
    else
      (match f(lines[0])
       case Some(rec) => [rec]
       case None => []) + FindAll(f, lines[1..])
  }

  /** The matches of two runs of lines are the matches of each, in order. */
  lemma {:induction false} FindAllAppend(f: string -> Option<Pair>, a: seq<string>, b: seq<string>)
    ensures FindAll(f, a + b) == FindAll(f, a) + FindAll(f, b)
  {
    if |a| == 0 {
      assert a + b == b;
    } else {
      assert (a + b)[0] == a[0];
      assert (a + b)[1..] == a[1..] + b;
      FindAllAppend(f, a[1..], b);
    }
  }

  /** A line contributes its captures when it matches and nothing otherwise. */
  lemma FindAllOne(f: string -> Option<Pair>, line: string)
    ensures FindAll(f, [line]) == (match f(line) case Some(rec) => [rec] case None => [])
  {
    assert [line][1..] == [];
  }

  /** The matches are exactly the captures of the matching lines. */
  lemma {:induction false} FindAllMembers(f: string -> Option<Pair>, lines: seq<string>, x: Pair)
    ensures x in FindAll(f, lines) <==> exists i :: 0 <= i < |lines| && f(lines[i]) == Some(x)
  {
    if |lines| > 0 {
      FindAllMembers(f, lines[1..], x);
      if exists i :: 0 <= i < |lines| && f(lines[i]) == Some(x) {
        var i :| 0 <= i < |lines| && f(lines[i]) == Some(x);
        if i > 0 {
          assert f(lines[1..][i - 1]) == Some(x);
        }
      }
      if x in FindAll(f, lines[1..]) {
        var i :| 0 <= i < |lines[1..]| && f(lines[1..][i]) == Some(x);
        assert f(lines[i + 1]) == Some(x);
      }
    }
  }

  /** The registry's records: the captures of the lines matching the
      utils.py:23 pattern, in text order. */
  function Records(lines: seq<string>): (r: seq<Pair>)
    ensures forall i :: 0 <= i < |r| ==> IsCanonical(r[i].0) && 1 <= |r[i].1| <= 128
  {
    RecordsShape(lines);
    FindAll(MatchRegistryLine, lines)
  }

  lemma RecordsShape(lines: seq<string>)
    ensures forall x :: x in FindAll(MatchRegistryLine, lines) ==> IsCanonical(x.0) && 1 <= |x.1| <= 128
  {
    forall x | x in FindAll(MatchRegistryLine, lines) ensures IsCanonical(x.0) && 1 <= |x.1| <= 128 {
      FindAllMembers(MatchRegistryLine, lines, x);
    }
  }

  /** The dict comprehension `{key: org for ...}`: records are stored in order,
      so a later record for a key replaces an earlier one. */
  function BuildMap(records: seq<Pair>): map<string, string>
  {
    if |records| == 0 then map[]
    else
      var last := records[|records| - 1];
      BuildMap(records[..|records| - 1])[last.0 := last.1]
  }

  /** The dict has no more entries than there were records. */
  lemma {:induction false} BuildMapSize(records: seq<Pair>)
    ensures |BuildMap(records)| <= |records|
  {
    if |records| > 0 {
      BuildMapSize(records[..|records| - 1]);
    }
  }

  /** The map holds exactly the keys of the records, and each key's value is the
      organisation of the last record with that key. */
  lemma {:induction false} BuildMapLastWins(records: seq<Pair>, k: string)
    ensures k in BuildMap(records) <==> exists i :: 0 <= i < |records| && records[i].0 == k
    ensures k in BuildMap(records) ==>
      exists i :: 0 <= i < |records| && records[i] == (k, BuildMap(records)[k]) &&
        forall j :: i < j < |records| ==> records[j].0 != k
  {
    if |records| > 0 {
      var n := |records| - 1;
      var init := records[..n];
      BuildMapLastWins(init, k);
      if records[n].0 != k {
        if exists i :: 0 <= i < |records| && records[i].0 == k {
          var i :| 0 <= i < |records| && records[i].0 == k;
          assert init[i].0 == k;
        }
        if k in BuildMap(records) {
          var i :| 0 <= i < |init| && init[i] == (k, BuildMap(init)[k]) &&
            forall j :: i < j < |init| ==> init[j].0 != k;
          assert records[i] == (k, BuildMap(records)[k]);
        }
      } else {
        assert records[n] == (k, BuildMap(records)[k]);
      }
    }
  }

  /** The map's keys are the records' keys. */
  lemma {:induction false} BuildMapKeys(records: seq<Pair>, k: string)
    ensures k in BuildMap(records) <==> exists i :: 0 <= i < |records| && records[i].0 == k
  {
    if |records| > 0 {
      var n := |records| - 1;
      BuildMapKeys(records[..n], k);
      if k != records[n].0 && exists i :: 0 <= i < |records| && records[i].0 == k {
        var i :| 0 <= i < |records| && records[i].0 == k;
        assert records[..n][i].0 == k;
      }
    }
  }

  /** Each value of the map is the organisation of some record with its key. */
  lemma {:induction false} BuildMapValue(records: seq<Pair>, k: string)
    requires k in BuildMap(records)
    ensures exists i :: 0 <= i < |records| && records[i] == (k, BuildMap(records)[k])
  {
    var n := |records| - 1;
    if records[n].0 != k {
      BuildMapValue(records[..n], k);
      var i :| 0 <= i < n && records[..n][i] == (k, BuildMap(records[..n])[k]);
      assert records[i] == (k, BuildMap(records)[k]);
    } else {
      assert records[n] == (k, BuildMap(records)[k]);
    }
  }

  /** Records keyed by canonical prefixes give a map keyed by them. */
  lemma BuildMapKeysCanonical(records: seq<Pair>)
    requires forall i :: 0 <= i < |records| ==> IsCanonical(records[i].0)
    ensures forall k :: k in BuildMap(records) ==> IsCanonical(k)
  {
    forall k | k in BuildMap(records) ensures IsCanonical(k) {
      BuildMapKeys(records, k);
    }
  }

  /** Line `line` matches under `f` with key `k`. */
  predicate HasKey(f: string -> Option<Pair>, line: string, k: string) {
    f(line).Some? && f(line).value.0 == k
  }

  /** One more line updates the map with its capture, if it matches. */
  lemma FindAllSnocMap(f: string -> Option<Pair>, init: seq<string>, line: string)
    ensures BuildMap(FindAll(f, init + [line])) ==
      match f(line)
      case None => BuildMap(FindAll(f, init))
      case Some(rec) => BuildMap(FindAll(f, init))[rec.0 := rec.1]
  {
    var recs := FindAll(f, init);
    var all := FindAll(f, init + [line]);
    FindAllAppend(f, init, [line]);
    FindAllOne(f, line);
    if f(line).Some? {
      var rec := f(line).value;
      assert all == recs + [rec];
      assert all[..|all| - 1] == recs && all[|all| - 1] == rec;
    } else {
      assert all == recs;
    }
  }

  /** The map built from the matches holds exactly the keys of the matching
      lines. */
  lemma {:induction false} FindAllKeys(f: string -> Option<Pair>, lines: seq<string>, k: string)
    ensures k in BuildMap(FindAll(f, lines)) <==> exists i :: 0 <= i < |lines| && HasKey(f, lines[i], k)
  {
    if |lines| > 0 {
      var n := |lines| - 1;
      var init := lines[..n];
      assert lines == init + [lines[n]];
      FindAllSnocMap(f, init, lines[n]);
      FindAllKeys(f, init, k);
      if exists i :: 0 <= i < |lines| && HasKey(f, lines[i], k) {
        var i :| 0 <= i < |lines| && HasKey(f, lines[i], k);
        if i < n {
          assert HasKey(f, init[i], k);
        }
      }
      if exists i :: 0 <= i < n && HasKey(f, init[i], k) {
        var i :| 0 <= i < n && HasKey(f, init[i], k);
        assert HasKey(f, lines[i], k);
      }
    }
  }

  /** Matches are taken in line order, so each key of the map holds the
      organisation of the last line that matches with it. */
  lemma {:induction false} FindAllLastWins(f: string -> Option<Pair>, lines: seq<string>, k: string)
    requires k in BuildMap(FindAll(f, lines))
    ensures exists i :: 0 <= i < |lines| && f(lines[i]) == Some((k, BuildMap(FindAll(f, lines))[k])) &&
                        forall j :: i < j < |lines| ==> !HasKey(f, lines[j], k)
  {
    var n := |lines| - 1;
    var init := lines[..n];
    assert lines == init + [lines[n]];
    FindAllSnocMap(f, init, lines[n]);
    var m := BuildMap(FindAll(f, lines));
    if HasKey(f, lines[n], k) {
      assert f(lines[n]) == Some((k, m[k]));
    } else {
      FindAllLastWins(f, init, k);
      var i :| 0 <= i < n && f(init[i]) == Some((k, BuildMap(FindAll(f, init))[k])) &&
        forall j :: i < j < n ==> !HasKey(f, init[j], k);
      assert f(lines[i]) == Some((k, m[k]));
      forall j | i < j < |lines| ensures !HasKey(f, lines[j], k) {
        if j < n {
          assert lines[j] == init[j];
        }
      }
    }
  }

  /** The upstream download: the response text, or a failure of the request. */
  datatype Fetch = Fetched(text: string) | FetchFailed

  /** The registry text as a map from canonical key to organisation. */
  function ParseRegistry(text: string): (m: map<string, string>)
    ensures forall k :: k in m ==> IsCanonical(k)
  {
    var recs := Records(Split(text, '\n'));
    BuildMapKeysCanonical(recs);
    BuildMap(recs)
  }

  /** get_ieee_oui: the parsed registry, or `None` for the empty `set()` the
      program returns when the download raised. */
  function GetIeeeOui(fetch: Fetch): (r: Option<map<string, string>>)
    ensures r.None? <==> fetch.FetchFailed?
    ensures fetch.Fetched? ==> r == Some(ParseRegistry(fetch.text))
  {
    match fetch
    case FetchFailed => None
    case Fetched(text) => Some(ParseRegistry(text))
  }

  lemma ParseRegistryParts(text: string)
    ensures ParseRegistry(text) == BuildMap(Records(Split(text, '\n')))
  {
  }

  lemma RecordsKeys(lines: seq<string>, k: string)
    ensures k in BuildMap(Records(lines)) <==> exists i :: 0 <= i < |lines| && HasKey(MatchRegistryLine, lines[i], k)
  {
    FindAllKeys(MatchRegistryLine, lines, k);
  }

  lemma RecordsLastWins(lines: seq<string>, k: string)
    requires k in BuildMap(Records(lines))
    ensures exists i :: 0 <= i < |lines| && MatchRegistryLine(lines[i]) == Some((k, BuildMap(Records(lines))[k])) &&
                        forall j :: i < j < |lines| ==> !HasKey(MatchRegistryLine, lines[j], k)
  {
    FindAllLastWins(MatchRegistryLine, lines, k);
  }

  /** The parsed registry holds exactly the keys of the matching lines of the
      text. */
  lemma ParseRegistryKeys(text: string, k: string)
    ensures var lines := Split(text, '\n');
      k in ParseRegistry(text) <==> exists i :: 0 <= i < |lines| && HasKey(MatchRegistryLine, lines[i], k)
  {
    ParseRegistryParts(text);
    RecordsKeys(Split(text, '\n'), k);
  }

  /** Each key of the parsed registry holds the organisation of the last line
      that matches with it: `findall` keeps text order and the dict keeps the
      last value. */
  lemma ParseRegistryLastWins(text: string, k: string)
    requires k in ParseRegistry(text)
    ensures var lines := Split(text, '\n');
      exists i :: 0 <= i < |lines| && MatchRegistryLine(lines[i]) == Some((k, ParseRegistry(text)[k])) &&
        forall j :: i < j < |lines| ==> !HasKey(MatchRegistryLine, lines[j], k)
  {
    ParseRegistryParts(text);
    RecordsLastWins(Split(text, '\n'), k);
  }

  /** The organisation captured from a line is a piece of that line. */
  lemma MatchedOrgInLine(line: string)
    requires MatchRegistryLine(line).Some?
    ensures forall c :: c in MatchRegistryLine(line).value.1 ==> c in line
  {
    MatchRegistryLineCases(line);
    var o := OrgStart(line, HexMarkerEnd(line).value).value;
    forall c | c in line[o..] ensures c in line {
      var x :| 0 <= x < |line[o..]| && line[o..][x] == c;
      assert line[o + x] == c;
    }
  }

  /** The text is cut into lines at every newline, so no organisation of the
      parsed registry holds one. */
  lemma ParseRegistryNoNewline(text: string)
    ensures forall k :: k in ParseRegistry(text) ==> '\n' !in ParseRegistry(text)[k]
  {
    var lines := Split(text, '\n');
    forall k | k in ParseRegistry(text) ensures '\n' !in ParseRegistry(text)[k] {
      ParseRegistryLastWins(text, k);
      var i :| 0 <= i < |lines| && MatchRegistryLine(lines[i]) == Some((k, ParseRegistry(text)[k])) &&
        forall j :: i < j < |lines| ==> !HasKey(MatchRegistryLine, lines[j], k);
      MatchedOrgInLine(lines[i]);
    }
  }
}
