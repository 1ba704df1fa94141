/** ouioui/app.py: rebuilding the table from the registry and the overrides,
    the Kismet export text, and the lookup of an address. */
module App {
  import opened Wrappers
  import opened Text
  import opened Prefix
  import opened Sorting
  import opened Utils
  import opened Store

  // ---------------------------------------------------------------------
  // Override merge
  // ---------------------------------------------------------------------

  /** The override loop: each `(prefix, org)` in turn is written into the
      registry map, `ieee_set[prefix] = manuf`. */
  method MergeOverrides(ieeeSet: map<string, string>, customSet: seq<Pair>) returns (merged: map<string, string>)
    ensures merged == ieeeSet + BuildMap(customSet)
  {
    merged := ieeeSet;
    var i := 0;
    while i < |customSet|
      invariant 0 <= i <= |customSet|
      invariant merged == ieeeSet + BuildMap(customSet[..i])
    {
      var (prefix, manuf) := customSet[i];
      assert customSet[..i + 1][..i] == customSet[..i];
      merged := merged[prefix := manuf];
      i := i + 1;
    }
    assert customSet[..i] == customSet;
  }

  /** The merged map holds the registry keys and the override prefixes; an
      overridden prefix takes the organisation of its last override; every other
      registry entry is kept as it was. */
  lemma MergeOverrideWins(ieeeSet: map<string, string>, customSet: seq<Pair>, k: string)
    ensures var merged := ieeeSet + BuildMap(customSet);
      && (k in merged <==> k in ieeeSet || exists i :: 0 <= i < |customSet| && customSet[i].0 == k)
      && ((exists i :: 0 <= i < |customSet| && customSet[i].0 == k) ==>
            exists i :: 0 <= i < |customSet| && customSet[i] == (k, merged[k]) &&
              forall j :: i < j < |customSet| ==> customSet[j].0 != k)
      && (k in ieeeSet && (forall i :: 0 <= i < |customSet| ==> customSet[i].0 != k) ==> merged[k] == ieeeSet[k])
  {
    BuildMapLastWins(customSet, k);
  }

  /** Overrides arrive sorted, so a prefix overridden several times ends with the
      greatest of its organisations. */
  lemma MergeSortedKeepsGreatest(ieeeSet: map<string, string>, customSet: seq<Pair>, p: Pair)
    requires StrictlySorted(customSet, PairLess)
    requires p in customSet
    ensures var merged := ieeeSet + BuildMap(customSet);
      p.0 in merged && (merged[p.0] == p.1 || StrLess(p.1, merged[p.0]))
  {
    var k := p.0;
    var merged := ieeeSet + BuildMap(customSet);
    var m :| 0 <= m < |customSet| && customSet[m] == p;
    BuildMapLastWins(customSet, k);
    var i :| 0 <= i < |customSet| && customSet[i] == (k, merged[k]) &&
      forall j :: i < j < |customSet| ==> customSet[j].0 != k;
    if m < i {
      assert PairLess(customSet[m], customSet[i]);
      StrLessIrreflexive(k);
    }
  }

  // ---------------------------------------------------------------------
  // Table rebuild (update)
  // ---------------------------------------------------------------------

  /** `rows` holds one row per entry of `m` and nothing else. */
  ghost predicate RowsOf(rows: seq<Row>, m: map<string, string>) {
    && |rows| == |m|
    && (forall r :: r in rows <==> r.prefix in m && m[r.prefix] == r.org)
  }

  /** The second loop of update: an `OUI(prefix, org)` object per entry of the
      merged map. The order of dict iteration is not modelled. */
  method BuildRows(merged: map<string, string>) returns (listOui: seq<Row>)
    ensures RowsOf(listOui, merged)
    ensures forall i, j :: 0 <= i < j < |listOui| ==> listOui[i].prefix != listOui[j].prefix
  {
    listOui := [];
    var remaining := merged.Keys;
    while remaining != {}
      invariant remaining <= merged.Keys
      invariant forall r :: r in listOui <==> r.prefix in merged && r.prefix !in remaining && merged[r.prefix] == r.org
      invariant forall i, j :: 0 <= i < j < |listOui| ==> listOui[i].prefix != listOui[j].prefix
      invariant |listOui| + |remaining| == |merged|
      decreases |remaining|
    {
      var prefix :| prefix in remaining;
      listOui := listOui + [Row(prefix, merged[prefix])];
      remaining := remaining - {prefix};
    }
  }

  /** The table the program builds from a downloaded registry and the override list. */
  function MergedTable(text: string, customOui: seq<Pair>): (m: map<string, string>)
    ensures forall k :: k in m ==> IsCanonical(k)
  {
    OverrideKeysCanonical(customOui);
    ParseRegistry(text) + BuildMap(CustomOui(customOui))
  }

  /** Every override that survives parse_custom_oui is keyed by a canonical prefix. */
  lemma OverrideKeysCanonical(customOui: seq<Pair>)
    ensures forall k :: k in BuildMap(CustomOui(customOui)) ==> IsCanonical(k)
  {
    var recs := CustomOui(customOui);
    forall i | 0 <= i < |recs| ensures IsCanonical(recs[i].0) {
      AcceptedMembers(customOui, recs[i]);
    }
    BuildMapKeysCanonical(recs);
  }

  /** The end of update: the rows of the merged map replace the table, then the
      timestamp is written. */
  method ReplaceTable(db: Database, merged: map<string, string>, now: string)
    requires db.lastUpdate.Some?
    modifies db
    ensures RowsOf(db.rows, merged)
    ensures db.lastUpdate == Some(now)
    ensures db.log == old(db.log) + [Truncated, Inserted(|db.rows|), Stamped(now)]
  {
    var listOui := BuildRows(merged);
    db.TruncateTable();
    db.BulkCreate(listOui);
    assert db.rows == listOui;
    db.SetLastUpdate(now);
  }

  /** App.update. Without registry data the program fails before touching the
      `OUI` table (the merge writes into, or iterates, the empty `set()`);
      otherwise the table is truncated, refilled with one row per merged entry,
      and only then is the timestamp written. */
  method Update(db: Database, fetch: Fetch, customOui: seq<Pair>, now: string) returns (r: Result<()>)
    modifies db
    ensures old(db.lastUpdate).None? && fetch.FetchFailed? ==> db.lastUpdate == Some("Never")
    ensures old(db.lastUpdate).Some? && fetch.FetchFailed? ==> db.lastUpdate == old(db.lastUpdate)
    ensures fetch.FetchFailed? ==> r.Err? && db.rows == old(db.rows) && db.log == old(db.log)
    ensures fetch.Fetched? ==>
      && r.Ok?
      && RowsOf(db.rows, MergedTable(fetch.text, customOui))
      && db.lastUpdate == Some(now)
      && db.log == old(db.log) + [Truncated, Inserted(|db.rows|), Stamped(now)]
  {
    var lastUpdate := db.GetOrCreateLastUpdate();
    var ieeeSet := GetIeeeOui(fetch);
    var customSet := ParseCustomOui(customOui);
    if ieeeSet.None? {
      return Err("registry download failed: the merge cannot write into an empty set");
    }
    var merged := MergeOverrides(ieeeSet.value, customSet);
    assert merged == MergedTable(fetch.text, customOui);
    ReplaceTable(db, merged, now);
    r := Ok(());
  }

  // ---------------------------------------------------------------------
  // Kismet export (package_for_kismet, up to the joined text)
  // ---------------------------------------------------------------------

  /** The merged map with every organisation stripped, `manuf.strip()`. */
  function StrippedOrgs(merged: map<string, string>): map<string, string> {
    map k | k in merged :: Strip(merged[k])
  }

  /** The lines `f"{prefix}\t{org}"` of a map, as a set. */
  function LinesOf(m: map<string, string>): set<string> {
    set p | p in m :: p + "\t" + m[p]
  }

  /** `"\n".join(sorted(final_set))` where `final_set` holds one line per
      merged entry with its organisation stripped; the text is empty exactly
      when the table is. */
  function KismetText(merged: map<string, string>): (r: string)
    ensures r == "" <==> |merged| == 0
  {
    assert StrippedOrgs(merged).Keys == merged.Keys;
    ExportText(StrippedOrgs(merged))
  }

  /** The lines of a map in ascending order, joined by newlines; empty exactly
      when the map is. */
  function ExportText(m: map<string, string>): (r: string)
    ensures r == "" <==> |m| == 0
  {
    StrLessIsStrictTotalOrder();
    LinesOfEmpty(m);
    var lines := SortSet(LinesOf(m), StrLess);
    assert |lines| > 0 ==> lines[0] in LinesOf(m);
    Join(lines, '\n')
  }

  /** A map has lines exactly when it has entries, and no line is empty. */
  lemma LinesOfEmpty(m: map<string, string>)
    ensures |LinesOf(m)| == 0 <==> |m| == 0
    ensures forall x :: x in LinesOf(m) ==> |x| > 0
  {
    if |m| > 0 {
      var k :| k in m;
      assert k + "\t" + m[k] in LinesOf(m);
    }
  }

  /** package_for_kismet up to the text it compresses; without registry data the
      program fails in the merge, as update does. */
  method PackageForKismet(fetch: Fetch, customOui: seq<Pair>) returns (r: Result<string>)
    ensures fetch.FetchFailed? ==> r.Err?
    ensures fetch.Fetched? ==> r == Ok(KismetText(MergedTable(fetch.text, customOui)))
  {
    var ieeeSet := GetIeeeOui(fetch);
    var customSet := ParseCustomOui(customOui);
    if ieeeSet.None? {
      return Err("registry download failed: the merge cannot write into an empty set");
    }
    var merged := MergeOverrides(ieeeSet.value, customSet);
    assert merged == MergedTable(fetch.text, customOui);
    r := Ok(KismetText(merged));
  }

  /** Reading one export line back: the eight-character prefix, a tab, the
      organisation. */
  function ReadKismetLine(line: string): Option<Pair> {
    if |line| >= 9 && line[8] == '\t' then Some((line[..8], line[9..])) else None
  }

  function ReadKismetRecords(lines: seq<string>): (r: seq<Pair>)
    ensures (forall i :: 0 <= i < |lines| ==> ReadKismetLine(lines[i]).Some?) ==>
      |r| == |lines| && forall i :: 0 <= i < |lines| ==> r[i] == ReadKismetLine(lines[i]).value
  {
    if |lines| == 0 then []
    else
      (match ReadKismetLine(lines[0])
       case Some(rec) => [rec]
       case None => []) + ReadKismetRecords(lines[1..])
  }

  /** The export text read back as a map from prefix to organisation. */
  function ReadKismet(text: string): map<string, string> {
    BuildMap(ReadKismetRecords(Split(text, '\n')))
  }

  lemma StripNoNewline(s: string)
    requires '\n' !in s
    ensures '\n' !in Strip(s)
  {
    StripIsSlice(s);
  }

  /** Keys of the export are canonical and organisations hold no newline. */
  ghost predicate Exportable(m: map<string, string>) {
    forall k :: k in m ==> IsCanonical(k) && '\n' !in m[k]
  }

  /** A line of the export holds no newline and reads back as its entry. */
  lemma LineReadsBack(m: map<string, string>, line: string)
    requires Exportable(m)
    requires line in LinesOf(m)
    ensures '\n' !in line
    ensures ReadKismetLine(line).Some?
    ensures var (k, org) := ReadKismetLine(line).value; k in m && m[k] == org
  {
    var p :| p in m && line == p + "\t" + m[p];
    assert line[..8] == p;
    assert line[9..] == m[p];
  }

  /** The export text is one line per merged entry, ascending, without
      duplicates, and reading it back gives every prefix its organisation with
      surrounding whitespace removed. */
  lemma KismetRoundTrip(merged: map<string, string>)
    requires forall k :: k in merged ==> IsCanonical(k)
    requires forall k :: k in merged ==> '\n' !in merged[k]
    ensures |merged| > 0 ==> StrictlySorted(Split(KismetText(merged), '\n'), StrLess)
    ensures |merged| > 0 ==>
      forall x :: x in Split(KismetText(merged), '\n') <==> x in LinesOf(StrippedOrgs(merged))
    ensures ReadKismet(KismetText(merged)) == StrippedOrgs(merged)
  {
    StrippedExportable(merged);
    ExportRoundTrip(StrippedOrgs(merged));
    if |merged| > 0 {
      ExportLines(StrippedOrgs(merged));
    }
  }

  lemma MergedTableParts(text: string, customOui: seq<Pair>)
    ensures MergedTable(text, customOui) == ParseRegistry(text) + BuildMap(CustomOui(customOui))
  {
  }

  /** Registry lines are cut at newlines, so the merged table's organisations
      hold a newline only when an override organisation does. */
  lemma MergedTableNoNewline(text: string, customOui: seq<Pair>)
    requires forall i :: 0 <= i < |customOui| ==> '\n' !in customOui[i].1
    ensures forall k :: k in MergedTable(text, customOui) ==> '\n' !in MergedTable(text, customOui)[k]
  {
    var recs := CustomOui(customOui);
    var overrides := BuildMap(recs);
    MergedTableParts(text, customOui);
    ParseRegistryNoNewline(text);
    forall k | k in overrides ensures '\n' !in overrides[k] {
      BuildMapValue(recs, k);
      var i :| 0 <= i < |recs| && recs[i] == (k, overrides[k]);
      AcceptedMembers(customOui, recs[i]);
    }
  }

  /** The text package_for_kismet compresses is one line per merged entry,
      ascending, and reads back as the merged table with its organisations
      stripped, provided no override organisation holds a newline. */
  lemma PackageReadsBack(text: string, customOui: seq<Pair>)
    requires forall i :: 0 <= i < |customOui| ==> '\n' !in customOui[i].1
    ensures var merged := MergedTable(text, customOui);
      && (|merged| > 0 ==> StrictlySorted(Split(KismetText(merged), '\n'), StrLess))
      && (|merged| > 0 ==>
            forall x :: x in Split(KismetText(merged), '\n') <==> x in LinesOf(StrippedOrgs(merged)))
      && ReadKismet(KismetText(merged)) == StrippedOrgs(merged)
  {
    MergedTableNoNewline(text, customOui);
    KismetRoundTrip(MergedTable(text, customOui));
  }

  lemma StrippedExportable(merged: map<string, string>)
    requires forall k :: k in merged ==> IsCanonical(k)
    requires forall k :: k in merged ==> '\n' !in merged[k]
    ensures Exportable(StrippedOrgs(merged))
    ensures |StrippedOrgs(merged)| == |merged|
  {
    var m := StrippedOrgs(merged);
    forall k | k in merged ensures '\n' !in m[k] {
      StripNoNewline(merged[k]);
    }
    assert m.Keys == merged.Keys;
  }

  /** The sorted, newline-joined lines of a map split back into those lines and
      read back into the map. */
  lemma ExportRoundTrip(m: map<string, string>)
    requires Exportable(m)
    ensures |m| > 0 ==> StrictlySorted(Split(ExportText(m), '\n'), StrLess)
    ensures BuildMap(ReadKismetRecords(Split(ExportText(m), '\n'))) == m
  {
    if |m| == 0 {
      StrLessIsStrictTotalOrder();
      assert SortSet(LinesOf(m), StrLess) == [];
      assert Split("", '\n') == [""];
      assert ReadKismetRecords([""]) == [];
    } else {
      ExportLines(m);
      ReadBackLines(m, Split(ExportText(m), '\n'));
    }
  }

  /** A non-empty export splits back into its lines, in ascending order. */
  lemma ExportLines(m: map<string, string>)
    requires Exportable(m) && |m| > 0
    ensures StrictlySorted(Split(ExportText(m), '\n'), StrLess)
    ensures forall x :: x in Split(ExportText(m), '\n') <==> x in LinesOf(m)
  {
    StrLessIsStrictTotalOrder();
    var lines := SortSet(LinesOf(m), StrLess);
    var k0 :| k0 in m;
    assert k0 + "\t" + m[k0] in LinesOf(m);
    forall i | 0 <= i < |lines| ensures '\n' !in lines[i] {
      LineReadsBack(m, lines[i]);
    }
    SplitJoin(lines, '\n');
  }

  /** Reading back the lines of a map, in any order, rebuilds the map. */
  lemma ReadBackLines(m: map<string, string>, lines: seq<string>)
    requires Exportable(m)
    requires forall x :: x in lines <==> x in LinesOf(m)
    ensures BuildMap(ReadKismetRecords(lines)) == m
  {
    var recs := ReadKismetRecords(lines);
    forall i | 0 <= i < |lines| ensures ReadKismetLine(lines[i]).Some? {
      LineReadsBack(m, lines[i]);
    }
    forall i | 0 <= i < |recs| ensures recs[i].0 in m && recs[i].1 == m[recs[i].0] {
      LineReadsBack(m, lines[i]);
    }
    forall k | k in m ensures exists i :: 0 <= i < |recs| && recs[i].0 == k {
      var line := k + "\t" + m[k];
      assert line in LinesOf(m);
      var i :| 0 <= i < |lines| && lines[i] == line;
      assert line[..8] == k;
      assert recs[i].0 == k;
    }
    BuildMapCovering(recs, m);
  }

  /** Records that agree with `m` and cover its keys build exactly `m`. */
  lemma BuildMapCovering(recs: seq<Pair>, m: map<string, string>)
    requires forall i :: 0 <= i < |recs| ==> recs[i].0 in m && recs[i].1 == m[recs[i].0]
    requires forall k :: k in m ==> exists i :: 0 <= i < |recs| && recs[i].0 == k
    ensures BuildMap(recs) == m
  {
    var got := BuildMap(recs);
    forall k ensures k in got <==> k in m {
      BuildMapKeys(recs, k);
    }
    forall k | k in got ensures got[k] == m[k] {
      BuildMapValue(recs, k);
    }
  }

  // ---------------------------------------------------------------------
  // Lookup
  // ---------------------------------------------------------------------

  /** The optional tail of the lookup regex,
      `(?:[:-]?(?:[0-9A-F]{2})?[:-]?(?:[0-9A-F]{2})?[:-]?(?:[0-9A-F]{2})?)?$`,
      read from item `slot` on: items 0, 2 and 4 are an optional separator,
      items 1, 3 and 5 an optional hex pair. Each item is tried present, then
      absent, as the regex engine backtracks. A tail holds only separators and
      hex digits, at most one character per separator item and two per pair
      item left. */
  function TailFrom(s: string, slot: nat): (b: bool)
    requires slot <= 6
    ensures b ==> forall i :: 0 <= i < |s| ==> IsSep(s[i]) || IsUpperHex(s[i])
    ensures b ==> |s| <= 2 * PairItems(slot) + SepItems(slot)
    decreases 6 - slot
  {
    if slot == 6 then |s| == 0
    else
      || (if slot in {0, 2, 4} then |s| >= 1 && IsSep(s[0]) && TailFrom(s[1..], slot + 1)
          else |s| >= 2 && IsUpperHex(s[0]) && IsUpperHex(s[1]) && TailFrom(s[2..], slot + 1))
      || TailFrom(s, slot + 1)
  }

  /** The normalisation in lookup: `re.fullmatch` of the address in upper case,
      then `f"{m[1]}:{m[2]}:{m[3]}"`, or the `ValueError`. */
  function Normalize(addr: string): (r: Result<string>)
    ensures r.Ok? ==> IsCanonical(r.value)
  {
    match FullMatch(Upper(addr))
    case Some(k) => Ok(k)
    case None => Err("Invalid OUI or MAC address passed.")
  }

  /** `re.fullmatch` of the lookup regex: the key built from the three
      captures, or `None`. */
  function FullMatch(u: string): (r: Option<string>)
    ensures r.Some? ==> IsCanonical(r.value)
  {
    var head := ParseHead(u);
    if head.Some? && TailFrom(u[head.value.1..], 0) then Some(head.value.0) else None
  }

  /** lookup: the organisations of the rows whose prefix starts with the
      normalised address. */
  function Lookup(db: Database, addr: string): (r: Result<set<string>>)
    reads db
    ensures r.Err? <==> Normalize(addr).Err?
    ensures r.Ok? ==> forall o :: o in r.value <==>
      exists i :: 0 <= i < |db.rows| && StartsWith(db.rows[i].prefix, Normalize(addr).value) && db.rows[i].org == o
  {
    match Normalize(addr)
    case Ok(k) => Ok(OrgsWithPrefix(db.rows, k))
    case Err(e) => Err(e)
  }

  /** Number of upper-case hex digits in `s`. */
  function HexCount(s: string): nat {
    if |s| == 0 then 0 else (if IsUpperHex(s[0]) then 1 else 0) + HexCount(s[1..])
  }

  /** Number of `:` and `-` in `s`. */
  function SepCount(s: string): nat {
    if |s| == 0 then 0 else (if IsSep(s[0]) then 1 else 0) + SepCount(s[1..])
  }

  lemma {:induction false} CountsAppend(a: string, b: string)
    ensures HexCount(a + b) == HexCount(a) + HexCount(b)
    ensures SepCount(a + b) == SepCount(a) + SepCount(b)
  {
    if |a| == 0 {
      assert a + b == b;
    } else {
      assert (a + b)[0] == a[0];
      assert (a + b)[1..] == a[1..] + b;
      CountsAppend(a[1..], b);
    }
  }

  lemma PairCounts(p: string)
    requires |p| == 2 && AllUpperHex(p)
    ensures HexCount(p) == 2 && SepCount(p) == 0
  {
    var q := p[1..];
    assert IsUpperHex(q[0]) && !IsSep(q[0]) && |q[1..]| == 0;
    assert HexCount(q) == 1 && SepCount(q) == 0;
  }

  /** How many pair items and separator items of the tail are left from item
      `slot` on. */
  function PairItems(slot: nat): nat {
    if slot <= 1 then 3 else if slot <= 3 then 2 else if slot <= 5 then 1 else 0
  }

  function SepItems(slot: nat): nat {
    if slot == 0 then 3 else if slot <= 2 then 2 else if slot <= 4 then 1 else 0
  }

  /** A tail holds whole pairs of hex digits, no more than pair items left,
      and no more separators than separator items left. */
  lemma {:induction false} TailCounts(s: string, slot: nat)
    requires slot <= 6
    requires TailFrom(s, slot)
    ensures HexCount(s) in {0, 2, 4, 6} && HexCount(s) <= 2 * PairItems(slot)
    ensures SepCount(s) <= SepItems(slot)
    decreases 6 - slot
  {
    if slot < 6 {
      if TailFrom(s, slot + 1) {
        TailCounts(s, slot + 1);
      } else if slot in {0, 2, 4} {
        TailCounts(s[1..], slot + 1);
      } else {
        TailCounts(s[2..], slot + 1);
        assert s[1..][1..] == s[2..];
      }
    }
  }

  /** The written head of a key holds its six hex digits and its separators. */
  lemma LayoutCounts(k: string, a: Sep, b: Sep)
    requires IsCanonical(k)
    ensures HexCount(Layout(k, a, b)) == 6
    ensures SepCount(Layout(k, a, b)) == |SepText(a)| + |SepText(b)|
    ensures forall i :: 0 <= i < |Layout(k, a, b)| ==> IsSep(Layout(k, a, b)[i]) || IsUpperHex(Layout(k, a, b)[i])
  {
    CountsAppend(k[0..2] + SepText(a) + k[3..5] + SepText(b), k[6..8]);
    CountsAppend(k[0..2] + SepText(a) + k[3..5], SepText(b));
    CountsAppend(k[0..2] + SepText(a), k[3..5]);
    CountsAppend(k[0..2], SepText(a));
    PairCounts(k[0..2]);
    PairCounts(k[3..5]);
    PairCounts(k[6..8]);
    match a {
      case NoSep =>
      case Colon => assert HexCount(":") == 0;
      case Dash => assert HexCount("-") == 0;
    }
    match b {
      case NoSep =>
      case Colon => assert HexCount(":") == 0;
      case Dash => assert HexCount("-") == 0;
    }
  }

  /** An accepted address, in upper case, is made of hex digits and at most
      five separators only, holds 6, 8, 10 or 12 hex digits, and starts with
      the written form of the key it normalises to. So lookup raises for fewer
      than six digits, an odd count, more than twelve, or any other character. */
  lemma NormalizeSound(addr: string, k: string)
    requires Normalize(addr) == Ok(k)
    ensures forall i :: 0 <= i < |addr| ==> IsSep(Upper(addr)[i]) || IsUpperHex(Upper(addr)[i])
    ensures HexCount(Upper(addr)) in {6, 8, 10, 12}
    ensures SepCount(Upper(addr)) <= 5
    ensures exists a, b :: StartsWith(Upper(addr), Layout(k, a, b))
    ensures KeyThenTail(Upper(addr), k)
  {
    FullMatchSound(Upper(addr), k);
  }

  lemma FullMatchSound(u: string, k: string)
    requires FullMatch(u) == Some(k)
    ensures forall i :: 0 <= i < |u| ==> IsSep(u[i]) || IsUpperHex(u[i])
    ensures HexCount(u) in {6, 8, 10, 12}
    ensures SepCount(u) <= 5
    ensures exists a, b :: StartsWith(u, Layout(k, a, b))
    ensures KeyThenTail(u, k)
  {
    FullMatchShaped(u, k);
    FullMatchChars(u, k);
    FullMatchCounts(u, k);
    var a, b := SepAt(u, 2), SepAt(u, SkipSep(u, 2) + 2);
    assert StartsWith(u, Layout(k, a, b));
  }

  lemma FullMatchChars(u: string, k: string)
    requires FullMatch(u) == Some(k)
    ensures forall i :: 0 <= i < |u| ==> IsSep(u[i]) || IsUpperHex(u[i])
  {
    var n := ParseHead(u).value.1;
    var a, b := SepAt(u, 2), SepAt(u, SkipSep(u, 2) + 2);
    var head, tail := u[..n], u[n..];
    forall i | 0 <= i < |u| ensures IsSep(u[i]) || IsUpperHex(u[i]) {
      if i >= n {
        assert u[i] == tail[i - n];
      } else {
        LayoutCounts(k, a, b);
        assert u[i] == head[i];
      }
    }
  }

  lemma FullMatchCounts(u: string, k: string)
    requires FullMatch(u) == Some(k)
    ensures HexCount(u) in {6, 8, 10, 12}
    ensures SepCount(u) <= 5
  {
    var n := ParseHead(u).value.1;
    assert u == u[..n] + u[n..];
    HeadTailCounts(u[..n], u[n..], k, SepAt(u, 2), SepAt(u, SkipSep(u, 2) + 2));
  }

  lemma HeadTailCounts(head: string, tail: string, k: string, a: Sep, b: Sep)
    requires IsCanonical(k) && head == Layout(k, a, b) && TailFrom(tail, 0)
    ensures HexCount(head + tail) in {6, 8, 10, 12}
    ensures SepCount(head + tail) <= 5
  {
    LayoutCounts(k, a, b);
    TailCounts(tail, 0);
    CountsAppend(head, tail);
  }

  /** The tail regex, written out: up to three optional `[:-]` each followed
      by an optional hex pair. */
  function TailText(c: Sep, d: string, x: Sep, e: string, y: Sep, f: string): string {
    SepText(c) + (d + (SepText(x) + (e + (SepText(y) + f))))
  }

  predicate OptionalPair(p: string) {
    (|p| == 0 || |p| == 2) && AllUpperHex(p)
  }

  lemma PairStep(p: string, rest: string, slot: nat)
    requires slot in {1, 3, 5}
    requires OptionalPair(p)
    requires TailFrom(rest, slot + 1)
    ensures TailFrom(p + rest, slot)
  {
    var s := p + rest;
    if |p| == 2 {
      assert s[0] == p[0] && s[1] == p[1] && s[2..] == rest;
    } else {
      assert s == rest;
    }
  }

  lemma SepStep(c: Sep, rest: string, slot: nat)
    requires slot in {0, 2, 4}
    requires TailFrom(rest, slot + 1)
    ensures TailFrom(SepText(c) + rest, slot)
  {
    var s := SepText(c) + rest;
    if c != NoSep {
      assert IsSep(s[0]) && s[1..] == rest;
    } else {
      assert s == rest;
    }
  }

  /** Every shape the tail regex describes is accepted. */
  lemma TailAccepts(c: Sep, d: string, x: Sep, e: string, y: Sep, f: string)
    requires OptionalPair(d) && OptionalPair(e) && OptionalPair(f)
    ensures TailFrom(TailText(c, d, x, e, y, f), 0)
  {
    var t4 := SepText(y) + f;
    var t3 := e + t4;
    var t2 := SepText(x) + t3;
    var t1 := d + t2;
    assert TailFrom(f, 5) by {
      assert TailFrom([], 6);
      assert f + [] == f;
      PairStep(f, [], 5);
    }
    assert TailFrom(t4, 4) by { SepStep(y, f, 4); }
    assert TailFrom(t3, 3) by { PairStep(e, t4, 3); }
    assert TailFrom(t2, 2) by { SepStep(x, t3, 2); }
    assert TailFrom(t1, 1) by { PairStep(d, t2, 1); }
    SepStep(c, t1, 0);
  }

  /** An accepted separator item: what it consumed and the accepted rest. */
  lemma SepSplit(s: string, slot: nat) returns (c: Sep, rest: string)
    requires slot in {0, 2, 4}
    requires TailFrom(s, slot)
    ensures s == SepText(c) + rest && TailFrom(rest, slot + 1)
  {
    if TailFrom(s, slot + 1) {
      c, rest := NoSep, s;
      assert SepText(c) + rest == s;
    } else {
      c := if s[0] == ':' then Colon else Dash;
      rest := s[1..];
      assert s == [s[0]] + s[1..];
    }
  }

  /** An accepted pair item: what it consumed and the accepted rest. */
  lemma PairSplit(s: string, slot: nat) returns (p: string, rest: string)
    requires slot in {1, 3, 5}
    requires TailFrom(s, slot)
    ensures OptionalPair(p) && s == p + rest && TailFrom(rest, slot + 1)
  {
    if TailFrom(s, slot + 1) {
      p, rest := "", s;
      assert p + rest == s;
    } else {
      p, rest := s[..2], s[2..];
      assert s == p + rest;
    }
  }

  /** The items an accepted tail consumed, one per slot. */
  lemma TailShape(s: string) returns (c: Sep, d: string, x: Sep, e: string, y: Sep, f: string)
    requires TailFrom(s, 0)
    ensures OptionalPair(d) && OptionalPair(e) && OptionalPair(f)
    ensures s == TailText(c, d, x, e, y, f)
  {
    var t1, t2, t3, t4, t5, t6;
    c, t1 := SepSplit(s, 0);
    d, t2 := PairSplit(t1, 1);
    x, t3 := SepSplit(t2, 2);
    e, t4 := PairSplit(t3, 3);
    y, t5 := SepSplit(t4, 4);
    f, t6 := PairSplit(t5, 5);
    assert t6 == [] by { assert TailFrom(t6, 6); }
    assert t5 == f + t6 == f;
  }

  /** One of the shapes the tail regex describes: up to three optional `[:-]`,
      each followed by an optional pair. */
  ghost predicate IsTailText(t: string) {
    exists c, d, x, e, y, f ::
      OptionalPair(d) && OptionalPair(e) && OptionalPair(f) && t == TailText(c, d, x, e, y, f)
  }

  /** The tail is accepted exactly when it is one of the shapes of the tail regex. */
  lemma TailExactly(s: string)
    ensures TailFrom(s, 0) <==> IsTailText(s)
  {
    if TailFrom(s, 0) {
      var c, d, x, e, y, f := TailShape(s);
    }
    if IsTailText(s) {
      TailOfShape(s);
    }
  }

  lemma TailOfShape(s: string)
    requires IsTailText(s)
    ensures TailFrom(s, 0)
  {
    var c, d, x, e, y, f :|
      OptionalPair(d) && OptionalPair(e) && OptionalPair(f) && s == TailText(c, d, x, e, y, f);
    TailTextAccepted(s, c, d, x, e, y, f);
  }

  lemma TailTextAccepted(s: string, c: Sep, d: string, x: Sep, e: string, y: Sep, f: string)
    requires OptionalPair(d) && OptionalPair(e) && OptionalPair(f)
    requires s == TailText(c, d, x, e, y, f)
    ensures TailFrom(s, 0)
  {
    TailAccepts(c, d, x, e, y, f);
  }

  /** The text starts with a written form of `k`, and the rest is a tail shape. */
  ghost predicate KeyThenTail(u: string, k: string)
    requires |k| == 8
  {
    exists a, b :: StartsWith(u, Layout(k, a, b)) && IsTailText(u[|Layout(k, a, b)|..])
  }

  lemma FullMatchShaped(u: string, k: string)
    requires FullMatch(u) == Some(k)
    ensures IsCanonical(k) && KeyThenTail(u, k)
  {
    var n := ParseHead(u).value.1;
    var a, b := SepAt(u, 2), SepAt(u, SkipSep(u, 2) + 2);
    assert u[..n] == Layout(k, a, b);
    TailExactly(u[n..]);
    assert StartsWith(u, Layout(k, a, b)) && IsTailText(u[|Layout(k, a, b)|..]);
  }

  lemma FullMatchOfShape(u: string, k: string)
    requires IsCanonical(k) && KeyThenTail(u, k)
    ensures FullMatch(u) == Some(k)
  {
    var a, b :| StartsWith(u, Layout(k, a, b)) && IsTailText(u[|Layout(k, a, b)|..]);
    TailExactly(u[|Layout(k, a, b)|..]);
    FullMatchOfHead(u, k, a, b);
  }

  lemma FullMatchOfHead(u: string, k: string, a: Sep, b: Sep)
    requires IsCanonical(k) && StartsWith(u, Layout(k, a, b))
    requires TailFrom(u[|Layout(k, a, b)|..], 0)
    ensures FullMatch(u) == Some(k)
  {
    var n := |Layout(k, a, b)|;
    assert u == Layout(k, a, b) + u[n..];
    ParseHeadComplete(k, a, b, u[n..]);
  }

  /** The full match succeeds with key `k` exactly when the text is a written
      form of `k` followed by one of the tail shapes. */
  lemma FullMatchExactly(u: string, k: string)
    ensures FullMatch(u) == Some(k) <==> IsCanonical(k) && KeyThenTail(u, k)
  {
    if FullMatch(u) == Some(k) {
      FullMatchShaped(u, k);
    }
    if IsCanonical(k) && KeyThenTail(u, k) {
      FullMatchOfShape(u, k);
    }
  }

  /** lookup accepts an address, with key `k`, exactly when its upper-cased
      text is a written form of `k` followed by one of the tail shapes; every
      other address raises `ValueError`. */
  lemma NormalizeExactly(addr: string, k: string)
    ensures Normalize(addr) == Ok(k) <==> IsCanonical(k) && KeyThenTail(Upper(addr), k)
  {
    FullMatchExactly(Upper(addr), k);
  }

  /** Every address of the documented shape normalises to its first three
      octets: `AABBCC`, `AA:BB:CC:11`, `AA-BB-CC-11-22`, `AA:BB:CC:DD:EE:FF`
      and the mixed forms alike. */
  lemma NormalizeComplete(k: string, a: Sep, b: Sep, c: Sep, d: string, x: Sep, e: string, y: Sep, f: string)
    requires IsCanonical(k)
    requires OptionalPair(d) && OptionalPair(e) && OptionalPair(f)
    ensures Normalize(Layout(k, a, b) + TailText(c, d, x, e, y, f)) == Ok(k)
  {
    var s := Layout(k, a, b) + TailText(c, d, x, e, y, f);
    NoLowerCase(k, a, b, c, d, x, e, y, f);
    UpperKeeps(s);
    FullMatchComplete(k, a, b, c, d, x, e, y, f);
  }

  lemma NoLowerCase(k: string, a: Sep, b: Sep, c: Sep, d: string, x: Sep, e: string, y: Sep, f: string)
    requires IsCanonical(k)
    requires OptionalPair(d) && OptionalPair(e) && OptionalPair(f)
    ensures var s := Layout(k, a, b) + TailText(c, d, x, e, y, f);
      forall i :: 0 <= i < |s| ==> !('a' <= s[i] <= 'z')
  {
    var head, tail := Layout(k, a, b), TailText(c, d, x, e, y, f);
    LayoutCounts(k, a, b);
    TailAccepts(c, d, x, e, y, f);
    forall i | 0 <= i < |head + tail| ensures !('a' <= (head + tail)[i] <= 'z') {
      if i >= |head| {
        assert (head + tail)[i] == tail[i - |head|];
      }
    }
  }

  lemma FullMatchComplete(k: string, a: Sep, b: Sep, c: Sep, d: string, x: Sep, e: string, y: Sep, f: string)
    requires IsCanonical(k)
    requires OptionalPair(d) && OptionalPair(e) && OptionalPair(f)
    ensures FullMatch(Layout(k, a, b) + TailText(c, d, x, e, y, f)) == Some(k)
  {
    var s := Layout(k, a, b) + TailText(c, d, x, e, y, f);
    ParseHeadComplete(k, a, b, TailText(c, d, x, e, y, f));
    assert s[|Layout(k, a, b)|..] == TailText(c, d, x, e, y, f);
    TailAccepts(c, d, x, e, y, f);
  }

  /** Lookup uppercases first, so the case of the address does not matter. */
  lemma NormalizeIgnoresCase(addr: string)
    ensures Normalize(Upper(addr)) == Normalize(addr)
  {
    UpperIdempotent(addr);
  }

  /** A canonical key normalises to itself. */
  lemma NormalizeCanonical(k: string)
    requires IsCanonical(k)
    ensures Normalize(k) == Ok(k)
  {
    CanonicalIsLayout(k);
    NormalizeComplete(k, Colon, Colon, NoSep, "", NoSep, "", NoSep, "");
    assert Layout(k, Colon, Colon) + TailText(NoSep, "", NoSep, "", NoSep, "") == k;
  }

  /** The address shape the project's own tests pass to lookup: three,
      four or five octets, written with one separator choice throughout
      (`AABBCC11`, `AA:BB:CC`, `AA-BB-CC-11-22`, ...). */
  function UniformAddress(k: string, sep: Sep, d: string, e: string, octets: nat): string
    requires |k| == 8
  {
    Layout(k, sep, sep)
      + TailText(if octets >= 4 then sep else NoSep, if octets >= 4 then d else "",
                 if octets >= 5 then sep else NoSep, if octets >= 5 then e else "",
                 NoSep, "")
  }

  /** Each of the tested formats normalises to its first three octets. */
  lemma TestedFormats(k: string, sep: Sep, d: string, e: string, octets: nat)
    requires IsCanonical(k)
    requires |d| == 2 && AllUpperHex(d) && |e| == 2 && AllUpperHex(e)
    requires 3 <= octets <= 5
    ensures Normalize(UniformAddress(k, sep, d, e, octets)) == Ok(k)
  {
    NormalizeComplete(k, sep, sep, if octets >= 4 then sep else NoSep, if octets >= 4 then d else "",
                      if octets >= 5 then sep else NoSep, if octets >= 5 then e else "", NoSep, "");
  }

  /** Every item of the tail regex is optional on its own, so separators with
      no pair after them are accepted: `AA:BB:CC:::`. */
  lemma TrailingSeparators(k: string)
    requires IsCanonical(k)
    ensures Normalize(Layout(k, Colon, Colon) + ":::") == Ok(k)
  {
    NormalizeComplete(k, Colon, Colon, Colon, "", Colon, "", Colon, "");
    ColonsTail();
  }

  lemma ColonsTail()
    ensures TailText(Colon, "", Colon, "", Colon, "") == ":::"
  {
    assert SepText(Colon) + "" == ":";
    assert SepText(Colon) + ("" + ":") == "::";
  }

  /** A separator may also end the address after a pair: `AABBCC-11:`. */
  lemma DanglingSeparator(k: string, d: string)
    requires IsCanonical(k)
    requires |d| == 2 && AllUpperHex(d)
    ensures Normalize(Layout(k, NoSep, NoSep) + ("-" + d + ":")) == Ok(k)
  {
    NormalizeComplete(k, NoSep, NoSep, Dash, d, Colon, "", NoSep, "");
    DanglingTail(d);
  }

  lemma DanglingTail(d: string)
    ensures TailText(Dash, d, Colon, "", NoSep, "") == "-" + d + ":"
  {
    assert SepText(Colon) + ("" + (SepText(NoSep) + "")) == ":";
  }

  /** After update, looking up an address gives the organisation of its
      normalised prefix, or nothing when the prefix is unknown: stored prefixes
      are all `XX:XX:XX`, so "starts with" is equality. */
  lemma LookupAfterRebuild(db: Database, m: map<string, string>, addr: string)
    requires RowsOf(db.rows, m)
    requires forall p :: p in m ==> IsCanonical(p)
    ensures Normalize(addr).Err? ==> Lookup(db, addr).Err?
    ensures Normalize(addr).Ok? ==>
      var k := Normalize(addr).value;
      Lookup(db, addr) == Ok(if k in m then {m[k]} else {})
  {
    if Normalize(addr).Ok? {
      OrgsOfRebuilt(db.rows, m, Normalize(addr).value);
    }
  }

  /** In rebuilt rows, the rows starting with a canonical key are the one row
      of that key, if any. */
  lemma OrgsOfRebuilt(rows: seq<Row>, m: map<string, string>, k: string)
    requires RowsOf(rows, m)
    requires forall p :: p in m ==> IsCanonical(p)
    requires IsCanonical(k)
    ensures OrgsWithPrefix(rows, k) == if k in m then {m[k]} else {}
  {
    var got := OrgsWithPrefix(rows, k);
    forall o ensures o in got <==> k in m && o == m[k] {
      if o in got {
        var i :| 0 <= i < |rows| && StartsWith(rows[i].prefix, k) && rows[i].org == o;
        assert rows[i] in rows;
        assert rows[i].prefix == k;
      }
      if k in m && o == m[k] {
        assert Row(k, o) in rows;
        var i :| 0 <= i < |rows| && rows[i] == Row(k, o);
        assert StartsWith(rows[i].prefix, k);
      }
    }
  }
}
