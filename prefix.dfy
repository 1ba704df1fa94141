/** The three-octet head shared by the program's prefix regexes,
    `([0-9A-F]{2})[:-]?([0-9A-F]{2})[:-]?([0-9A-F]{2})`, and the canonical
    `XX:XX:XX` key built from its three captures. */
module Prefix {
  import opened Wrappers
  import opened Text

  /** `XX:XX:XX` with upper-case hex digits: the key the program stores. */
  predicate IsCanonical(k: string) {
    && |k| == 8 && k[2] == ':' && k[5] == ':'
    && IsUpperHex(k[0]) && IsUpperHex(k[1])
    && IsUpperHex(k[3]) && IsUpperHex(k[4])
    && IsUpperHex(k[6]) && IsUpperHex(k[7])
  }

  /** What an optional `[:-]?` consumed: nothing, a colon or a hyphen. */
  datatype Sep = NoSep | Colon | Dash

  function SepText(s: Sep): (t: string)
    ensures |t| <= 1 && forall i :: 0 <= i < |t| ==> IsSep(t[i])
  {
    match s
    case NoSep => ""
    case Colon => ":"
    case Dash => "-"
  }

  /** The written form of the canonical key `k` with separators `a` and `b`
      between its octets (`AABBCC`, `AA:BB-CC`, ...). */
  function Layout(k: string, a: Sep, b: Sep): (s: string)
    requires |k| == 8
    ensures 6 <= |s| <= 8
  {
    k[0..2] + SepText(a) + k[3..5] + SepText(b) + k[6..8]
  }

  /** Two upper-case hex digits at position `i`. */
  predicate PairAt(s: string, i: nat) {
    i + 2 <= |s| && IsUpperHex(s[i]) && IsUpperHex(s[i + 1])
  }

  /** What `[:-]?` matches at position `i` of `s`. */
  function SepAt(s: string, i: nat): Sep {
    if i < |s| && s[i] == ':' then Colon
    else if i < |s| && s[i] == '-' then Dash
    else NoSep
  }

  /** Where matching continues after `[:-]?` at position `i`. */
  function SkipSep(s: string, i: nat): nat {
    i + |SepText(SepAt(s, i))|
  }

  /** The head regex anchored at the start of `s`: on a match, the key
      `m[1]:m[2]:m[3]` and the position where the match ends. Hex digits are
      never separators, so `[:-]?` has only one way to match. */
  function ParseHead(s: string): (r: Option<(string, nat)>)
    ensures r.Some? ==> IsCanonical(r.value.0) && r.value.1 <= |s|
    ensures r.Some? ==> s[..r.value.1] == Layout(r.value.0, SepAt(s, 2), SepAt(s, SkipSep(s, 2) + 2))
  {
    if !PairAt(s, 0) then None
    else
      var i := SkipSep(s, 2);
      if !PairAt(s, i) then None
      else
        var j := SkipSep(s, i + 2);
        if !PairAt(s, j) then None
        else
          var k := s[0..2] + ":" + s[i..i + 2] + ":" + s[j..j + 2];
          HeadParts(s, i, j, k);
          Some((k, j + 2))
  }

  /** The three pairs found make a canonical key, and the text consumed is
      that key written with the separators found. */
  lemma HeadParts(s: string, i: nat, j: nat, k: string)
    requires PairAt(s, 0) && i == SkipSep(s, 2) && PairAt(s, i) && j == SkipSep(s, i + 2) && PairAt(s, j)
    requires k == s[0..2] + ":" + s[i..i + 2] + ":" + s[j..j + 2]
    ensures IsCanonical(k)
    ensures s[..j + 2] == Layout(k, SepAt(s, 2), SepAt(s, i + 2))
  {
    assert k[0..2] == s[0..2] && k[3..5] == s[i..i + 2] && k[6..8] == s[j..j + 2];
    assert k[0] == s[0] && k[1] == s[1] && k[3] == s[i] && k[4] == s[i + 1] && k[6] == s[j] && k[7] == s[j + 1];
    assert s[2..i] == SepText(SepAt(s, 2));
    assert s[i + 2..j] == SepText(SepAt(s, i + 2));
    assert s[..j + 2] == s[0..2] + s[2..i] + s[i..i + 2] + s[i + 2..j] + s[j..j + 2];
  }

  /** Every written form of a canonical key is matched, whatever follows it,
      and the captures rebuild the key. */
  lemma ParseHeadComplete(k: string, a: Sep, b: Sep, rest: string)
    requires IsCanonical(k)
    ensures ParseHead(Layout(k, a, b) + rest) == Some((k, |Layout(k, a, b)|))
  {
    var s := Layout(k, a, b) + rest;
    var i := 2 + |SepText(a)|;
    var j := i + 2 + |SepText(b)|;
    LayoutPieces(k, a, b, rest);
    assert SkipSep(s, 2) == i;
    assert SkipSep(s, i + 2) == j;
    assert s[0..2] + ":" + s[i..i + 2] + ":" + s[j..j + 2] == k;
  }

  /** Where the three pairs of a written key sit, and what each `[:-]?` reads,
      whatever follows it. */
  lemma LayoutPieces(k: string, a: Sep, b: Sep, rest: string)
    requires IsCanonical(k)
    ensures var i := 2 + |SepText(a)|; var j := i + 2 + |SepText(b)|;
      j + 2 == |Layout(k, a, b)|
    ensures var s := Layout(k, a, b) + rest; var i := 2 + |SepText(a)|; var j := i + 2 + |SepText(b)|;
      s[0..2] == k[0..2] && s[i..i + 2] == k[3..5] && s[j..j + 2] == k[6..8]
    ensures var s := Layout(k, a, b) + rest; var i := 2 + |SepText(a)|; var j := i + 2 + |SepText(b)|;
      PairAt(s, 0) && PairAt(s, i) && PairAt(s, j)
    ensures var s := Layout(k, a, b) + rest; var i := 2 + |SepText(a)|;
      SepAt(s, 2) == a && SepAt(s, i + 2) == b
  {
    var layout := Layout(k, a, b);
    var s := layout + rest;
    var x := k[0..2] + SepText(a);
    var xm := x + k[3..5];
    var y := xm + SepText(b);
    assert layout == y + k[6..8];
    assert s[0] == layout[0] == k[0] && s[1] == layout[1] == k[1];
    assert s[|x|] == layout[|x|] == y[|x|] == xm[|x|] == k[3];
    assert s[|x| + 1] == layout[|x| + 1] == y[|x| + 1] == xm[|x| + 1] == k[4];
    assert s[|y|] == layout[|y|] == k[6];
    assert s[|y| + 1] == layout[|y| + 1] == k[7];
    if a != NoSep {
      assert s[2] == layout[2] == y[2] == xm[2] == x[2] == SepText(a)[0];
    }
    SepRead(s, 2, a, k[3]);
    if b != NoSep {
      assert s[|xm|] == layout[|xm|] == y[|xm|] == SepText(b)[0];
    }
    SepRead(s, |xm|, b, k[6]);
  }

  /** `[:-]?` reads back the separator `t` written at position `i`, given that
      when nothing was written a hex digit `c` stands there instead. */
  lemma SepRead(s: string, i: nat, t: Sep, c: char)
    requires IsUpperHex(c) && i < |s|
    requires s[i] == (if t == NoSep then c else SepText(t)[0])
    ensures SepAt(s, i) == t
  {
  }

  /** A canonical key is one of its own written forms. */
  lemma CanonicalIsLayout(k: string)
    requires IsCanonical(k)
    ensures Layout(k, Colon, Colon) == k
  {
    assert k == k[0..2] + ":" + k[3..5] + ":" + k[6..8];
  }
}
