/** ouioui/ouioui.py: the older `OUIManager`, which reads the `(base 16)` lines
    of the registry, empties the table before it downloads, and looks up a
    cleaned address without checking its characters. */
module Manager {
  import opened Wrappers
  import opened Text
  import opened Utils
  import opened Store

  // ---------------------------------------------------------------------
  // The `(base 16)` registry lines
  // ---------------------------------------------------------------------

  /** What separates the six digits from the organisation on a line:
      five spaces, `(base 16)` and two tabs. */
  const Base16Marker: string := "     (base 16)\t\t"

  /** `^([0-9A-F]{6})     \(base 16\)\t\t(.{1,128})$` on one line: the six
      digits and the rest of the line, which must be 1 to 128 characters. */
  function MatchBase16Line(line: string): (r: Option<Pair>)
    ensures r.Some? ==> |r.value.0| == 6 && AllUpperHex(r.value.0) && 1 <= |r.value.1| <= 128
  {
    if |line| >= 22 && AllUpperHex(line[..6]) && line[6..22] == Base16Marker
       && 1 <= |line| - 22 <= 128
    then Some((line[..6], line[22..]))
    else None
  }

  /** A matched line is six upper-case hex digits, the marker and an
      organisation of 1 to 128 characters, which are the two captures. */
  lemma Base16LineSound(line: string, p: string, org: string)
    requires MatchBase16Line(line) == Some((p, org))
    ensures |p| == 6 && AllUpperHex(p)
    ensures 1 <= |org| <= 128
    ensures line == p + Base16Marker + org
  {
    assert line == line[..6] + line[6..22] + line[22..];
  }

  /** Every such line matches, and its captures are its parts. */
  lemma Base16LineComplete(p: string, org: string)
    requires |p| == 6 && AllUpperHex(p)
    requires 1 <= |org| <= 128
    ensures MatchBase16Line(p + Base16Marker + org) == Some((p, org))
  {
    var line := p + Base16Marker + org;
    assert line[..6] == p;
    assert line[6..22] == Base16Marker;
    assert line[22..] == org;
  }

  /** An organisation longer than 128 characters makes the line fail; it is
      not cut short. */
  lemma Base16LineTooLong(p: string, org: string)
    requires |p| == 6
    requires |org| > 128
    ensures MatchBase16Line(p + Base16Marker + org) == None
  {
  }

  // ---------------------------------------------------------------------
  // Building the rows
  // ---------------------------------------------------------------------

  predicate IsLineBreak(c: char) {
    c == '\r' || c == '\n' || c == '\t'
  }

  /** `re.sub("[\r\n\t]", "", org)`. */
  function Sanitize(s: string): (r: string)
    ensures |r| <= |s|
    ensures forall i :: 0 <= i < |r| ==> !IsLineBreak(r[i])
  {
    if |s| == 0 then []
    else (if IsLineBreak(s[0]) then [] else [s[0]]) + Sanitize(s[1..])
  }

  /** Removing is done piece by piece: what is removed from a concatenation is
      what is removed from each part, and every other character stays, in
      order. */
  lemma {:induction false} SanitizeAppend(a: string, b: string)
    ensures Sanitize(a + b) == Sanitize(a) + Sanitize(b)
  {
    if |a| == 0 {
      assert a + b == b;
    } else {
      assert (a + b)[0] == a[0];
      assert (a + b)[1..] == a[1..] + b;
      SanitizeAppend(a[1..], b);
    }
  }

  /** A single character is dropped when it is CR, LF or TAB and kept
      otherwise. */
  lemma SanitizeOne(c: char)
    ensures Sanitize([c]) == if IsLineBreak(c) then [] else [c]
  {
    assert [c][1..] == [];
  }

  /** Text without CR, LF or TAB is kept as it is, and only such text is. */
  lemma {:induction false} SanitizeKeepsClean(s: string)
    ensures Sanitize(s) == s <==> forall i :: 0 <= i < |s| ==> !IsLineBreak(s[i])
  {
    if |s| > 0 {
      SanitizeKeepsClean(s[1..]);
      if IsLineBreak(s[0]) {
        assert |Sanitize(s)| < |s|;
      } else if Sanitize(s) == s {
        assert Sanitize(s[1..]) == s[1..];
      }
    }
  }

  /** `prefix.replace('-', '')`. */
  function RemoveDashes(s: string): (r: string)
    ensures '-' !in r
  {
    if |s| == 0 then []
    else (if s[0] == '-' then [] else [s[0]]) + RemoveDashes(s[1..])
  }

  /** The captured digits hold no `-`, so the replace changes nothing. */
  lemma {:induction false} RemoveDashesOfHex(s: string)
    requires AllUpperHex(s)
    ensures RemoveDashes(s) == s
  {
    if |s| > 0 {
      RemoveDashesOfHex(s[1..]);
      assert s == [s[0]] + s[1..];
    }
  }

  /** The row made from one match. */
  function RowOf(rec: Pair): Row {
    Row(RemoveDashes(rec.0), Sanitize(rec.1))
  }

  /** The loop of update: one `OUI` object per match, in order. */
  method CollectRows(matches: seq<Pair>) returns (listOui: seq<Row>)
    ensures |listOui| == |matches|
    ensures forall i :: 0 <= i < |matches| ==> listOui[i] == RowOf(matches[i])
  {
    listOui := [];
    for i := 0 to |matches|
      invariant |listOui| == i
      invariant forall j :: 0 <= j < i ==> listOui[j] == RowOf(matches[j])
    {
      var prefix, org := matches[i].0, matches[i].1;
      listOui := listOui + [Row(RemoveDashes(prefix), Sanitize(org))];
    }
  }

  /** The rows update stores for a registry text: one per matching
      `(base 16)` line, in text order. */
  function Base16Rows(text: string): (rows: seq<Row>)
    ensures |rows| <= |Split(text, '\n')|
  {
    var matches := FindAll(MatchBase16Line, Split(text, '\n'));
    seq(|matches|, i requires 0 <= i < |matches| => RowOf(matches[i]))
  }

  /** Every stored row has six upper-case hex digits as its prefix and an
      organisation of at most 128 characters without CR, LF or TAB. */
  lemma Base16RowsShape(text: string)
    ensures forall r :: r in Base16Rows(text) ==>
      |r.prefix| == 6 && AllUpperHex(r.prefix) && |r.org| <= 128 &&
      forall i :: 0 <= i < |r.org| ==> !IsLineBreak(r.org[i])
  {
    var lines := Split(text, '\n');
    var matches := FindAll(MatchBase16Line, lines);
    forall r | r in Base16Rows(text)
      ensures |r.prefix| == 6 && AllUpperHex(r.prefix) && |r.org| <= 128
    {
      var i :| 0 <= i < |matches| && r == RowOf(matches[i]);
      FindAllMembers(MatchBase16Line, lines, matches[i]);
      RemoveDashesOfHex(matches[i].0);
    }
  }

  // ---------------------------------------------------------------------
  // update
  // ---------------------------------------------------------------------

  /** OUIManager.update: the marker is fetched or created, the table is
      emptied, and only then is the registry downloaded; a failed download
      ends the method with the table empty and the marker as it was. */
  method Update(db: Database, fetch: Fetch, now: string)
    modifies db
    ensures fetch.FetchFailed? ==>
      && db.rows == []
      && db.lastUpdate == (if old(db.lastUpdate).Some? then old(db.lastUpdate) else Some("Never"))
      && db.log == old(db.log) + [Truncated]
    ensures fetch.Fetched? ==>
      && db.rows == Base16Rows(fetch.text)
      && db.lastUpdate == Some(now)
      && db.log == old(db.log) + [Truncated, Inserted(|db.rows|), Stamped(now)]
  {
    var _ := db.GetOrCreateLastUpdate();
    db.TruncateTable();
    if fetch.FetchFailed? {
      return;
    }
    var matches := FindAll(MatchBase16Line, Split(fetch.text, '\n'));
    var listOui := CollectRows(matches);
    assert listOui == Base16Rows(fetch.text);
    db.BulkCreate(listOui);
    db.SetLastUpdate(now);
  }

  // ---------------------------------------------------------------------
  // lookup
  // ---------------------------------------------------------------------

  /** `re.sub("[.:-]", "", m)`. */
  function RemoveSeparators(s: string): (r: string)
    ensures |r| <= |s|
    ensures forall i :: 0 <= i < |r| ==> r[i] != '.' && r[i] != ':' && r[i] != '-'
  {
    if |s| == 0 then []
    else (if s[0] in ".:-" then [] else [s[0]]) + RemoveSeparators(s[1..])
  }

  /** Removing is done piece by piece: what is removed from a concatenation
      is what is removed from each part. */
  lemma {:induction false} RemoveSeparatorsAppend(a: string, b: string)
    ensures RemoveSeparators(a + b) == RemoveSeparators(a) + RemoveSeparators(b)
  {
    if |a| == 0 {
      assert a + b == b;
    } else {
      assert (a + b)[0] == a[0];
      assert (a + b)[1..] == a[1..] + b;
      RemoveSeparatorsAppend(a[1..], b);
    }
  }

  /** A single character is dropped when it is `.`, `:` or `-` and kept
      otherwise. */
  lemma RemoveSeparatorsOne(c: char)
    ensures RemoveSeparators([c]) == if c in ".:-" then [] else [c]
  {
    assert [c][1..] == [];
  }

  /** OUIManager.lookup: `None` for the `False` returned when fewer than six
      characters remain, otherwise the organisations, in table order, of the
      rows whose prefix starts with the whole cleaned, upper-cased query. */
  function Lookup(db: Database, m: string): (r: Option<seq<string>>)
    reads db
    ensures r.None? <==> |RemoveSeparators(m)| < 6
    ensures r.Some? ==> |r.value| <= |db.rows|
    ensures r.Some? ==> r.value == SelectOrgs(db.rows, Upper(RemoveSeparators(m)))
  {
    var cleaned := RemoveSeparators(m);
    if |cleaned| < 6 then None
    else Some(SelectOrgs(db.rows, Upper(cleaned)))
  }

  /** A query is refused exactly when fewer than six characters are left
      once the separators are gone; otherwise every row whose prefix starts
      with the upper-cased query is listed, and no other. */
  lemma LookupResult(db: Database, m: string, o: string)
    ensures Lookup(db, m).None? <==> |RemoveSeparators(m)| < 6
    ensures Lookup(db, m).Some? ==>
      (o in Lookup(db, m).value <==>
        exists i :: 0 <= i < |db.rows| && StartsWith(db.rows[i].prefix, Upper(RemoveSeparators(m))) && db.rows[i].org == o)
  {
    SelectOrgsMembers(db.rows, Upper(RemoveSeparators(m)), o);
  }

  /** The query is never cut to six characters: with the six-digit prefixes
      update stores, a longer query, such as a full address, finds nothing. */
  lemma LookupLongQueryFindsNothing(db: Database, m: string)
    requires forall i :: 0 <= i < |db.rows| ==> |db.rows[i].prefix| == 6
    requires |RemoveSeparators(m)| > 6
    ensures Lookup(db, m) == Some([])
  {
    NoRowStartsWithLonger(db.rows, Upper(RemoveSeparators(m)));
  }

  lemma {:induction false} NoRowStartsWithLonger(rows: seq<Row>, q: string)
    requires forall i :: 0 <= i < |rows| ==> |rows[i].prefix| < |q|
    ensures SelectOrgs(rows, q) == []
  {
    if |rows| > 0 {
      NoRowStartsWithLonger(rows[1..], q);
    }
  }

  /** The characters are not checked: a query of six non-hex letters is
      looked up like any other. */
  lemma LookupDoesNotCheckHex(db: Database)
    ensures Lookup(db, "ZZ:ZZ:ZZ").Some?
  {
    assert RemoveSeparators("ZZ:ZZ:ZZ") == "ZZZZZZ";
  }
}
