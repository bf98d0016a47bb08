/**
 * The PHP string and array built-ins that the plugin's filters rely on,
 * written out on `string` (= `seq<char>`) and `seq<string>`, each with the
 * property that makes it what PHP documents.
 */
module PhpStrings {
  import opened Wrappers

  // ---------------------------------------------------------------------
  // explode(',', $s) and its inverse implode(',', $pieces)
  // ---------------------------------------------------------------------

  /** `explode(',', s)`: the pieces between commas, left to right; "" gives [""]. */
  function Explode(s: string): (r: seq<string>)
    ensures |r| > 0
    ensures forall i :: 0 <= i < |r| ==> ',' !in r[i]
  {
    if s == [] then [""]
    else
      var rest := Explode(s[1..]);
      if s[0] == ',' then [""] + rest
      else [[s[0]] + rest[0]] + rest[1..]
  }

  /** `implode(sep, pieces)`. */
  function Join(pieces: seq<string>, sep: string): (r: string)
    requires |pieces| > 0
  {
    if |pieces| == 1 then pieces[0] else pieces[0] + sep + Join(pieces[1..], sep)
  }

  /** Joining the pieces of a string gives the string back. */
  lemma {:induction false} JoinExplode(s: string)
    ensures Join(Explode(s), ",") == s
  {
    if s != [] {
      JoinExplode(s[1..]);
      var rest := Explode(s[1..]);
      if s[0] == ',' {
        assert Explode(s)[1..] == rest;
      } else {
        var r := Explode(s);
        if |rest| == 1 {
          assert r == [[s[0]] + rest[0]];
        } else {
          assert r[1..] == rest[1..];
          assert Join(r, ",") == [s[0]] + rest[0] + "," + Join(rest[1..], ",");
        }
      }
    }
  }

  /** Exploding a comma-free list of pieces after joining it gives the pieces back. */
  lemma {:induction false} ExplodeJoin(pieces: seq<string>)
    requires |pieces| > 0
    requires forall i :: 0 <= i < |pieces| ==> ',' !in pieces[i]
    ensures Explode(Join(pieces, ",")) == pieces
  {
    if |pieces| == 1 {
      ExplodeNoComma(pieces[0]);
    } else {
      ExplodeJoin(pieces[1..]);
      ExplodeAppend(pieces[0], Join(pieces[1..], ","));
      assert [pieces[0]] + pieces[1..] == pieces;
    }
  }

  lemma {:induction false} ExplodeNoComma(s: string)
    requires ',' !in s
    ensures Explode(s) == [s]
  {
    if s != [] {
      assert forall c :: c in s[1..] ==> c in s;
      ExplodeNoComma(s[1..]);
      assert [s[0]] + s[1..] == s;
    }
  }

  lemma {:induction false} ExplodeAppend(p: string, t: string)
    requires ',' !in p
    ensures Explode(p + "," + t) == [p] + Explode(t)
  {
    if p == [] {
      assert p + "," + t == [','] + t;
      assert ([','] + t)[1..] == t;
    } else {
      var s := p + "," + t;
      assert s[0] == p[0];
      assert s[1..] == p[1..] + "," + t;
      ExplodeAppend(p[1..], t);
      assert [p[0]] + p[1..] == p;
    }
  }

  // ---------------------------------------------------------------------
  // trim($s) with PHP's default character list " \t\n\r\0\x0B"
  // ---------------------------------------------------------------------

  const TrimChars: set<char> := {' ', '\t', '\n', '\r', '\0', '\U{B}'}

  /** The first index at or after `i` that is not a blank. */
  function LeadingEnd(s: string, i: nat): (j: nat)
    requires i <= |s|
    ensures i <= j <= |s|
    ensures forall k :: i <= k < j ==> s[k] in TrimChars
    ensures j < |s| ==> s[j] !in TrimChars
    decreases |s| - i
  {
    if i < |s| && s[i] in TrimChars then LeadingEnd(s, i + 1) else i
  }

  /** Where the run of blanks that ends at `j` starts, not going below `lo`. */
  function TrailingStart(s: string, lo: nat, j: nat): (e: nat)
    requires lo <= j <= |s|
    ensures lo <= e <= j
    ensures forall k :: e <= k < j ==> s[k] in TrimChars
    ensures e > lo ==> s[e - 1] !in TrimChars
    decreases j - lo
  {
    if j > lo && s[j - 1] in TrimChars then TrailingStart(s, lo, j - 1) else j
  }

  /** `trim(s)`: `s` without its leading and trailing blanks. */
  function Trim(s: string): (r: string)
    ensures |r| <= |s|
    ensures r == [] || (r[0] !in TrimChars && r[|r| - 1] !in TrimChars)
  {
    var a := LeadingEnd(s, 0);
    var b := TrailingStart(s, a, |s|);
    assert a < b ==> s[a..b][0] == s[a] && s[a..b][b - a - 1] == s[b - 1];
    s[a..b]
  }

  /** Trim removes blanks at both ends and only there: the result is the slice
      `s[a..b]` whose ends are not blanks, and whatever was cut off is blanks. */
  lemma TrimIsSlice(s: string) returns (a: nat, b: nat)
    ensures a <= b <= |s| && Trim(s) == s[a..b]
    ensures forall k :: 0 <= k < a ==> s[k] in TrimChars
    ensures forall k :: b <= k < |s| ==> s[k] in TrimChars
    ensures Trim(s) == [] || (Trim(s)[0] !in TrimChars && Trim(s)[|Trim(s)| - 1] !in TrimChars)
  {
    a := LeadingEnd(s, 0);
    b := TrailingStart(s, a, |s|);
    if a < b {
      assert Trim(s)[0] == s[a];
      assert Trim(s)[|Trim(s)| - 1] == s[b - 1];
    }
  }

  /** Trimming twice is trimming once. */
  lemma TrimIdempotent(s: string)
    ensures Trim(Trim(s)) == Trim(s)
  {
    var t := Trim(s);
    var _, _ := TrimIsSlice(s);
    if t != [] {
      assert LeadingEnd(t, 0) == 0;
      assert TrailingStart(t, 0, |t|) == |t|;
      assert t[0..|t|] == t;
    }
  }

  /** PHP's `empty()` on a string: true for "" and for "0". */
  predicate IsEmpty(s: string)
  {
    s == "" || s == "0"
  }

  // ---------------------------------------------------------------------
  // strpos($haystack, $needle), str_replace($search, $replace, $subject)
  // ---------------------------------------------------------------------

  predicate MatchAt(s: string, needle: string, k: int)
  {
    0 <= k && k + |needle| <= |s| && s[k..k + |needle|] == needle
  }

  predicate Contains(s: string, needle: string)
  {
    exists k :: 0 <= k <= |s| - |needle| && MatchAt(s, needle, k)
  }

  function StrPosFrom(haystack: string, needle: string, from: nat): (r: Option<nat>)
    requires |needle| > 0
    ensures r.Some? ==> from <= r.value && MatchAt(haystack, needle, r.value)
    ensures r.Some? ==> forall k :: from <= k < r.value ==> !MatchAt(haystack, needle, k)
    ensures r.None? ==> forall k :: from <= k ==> !MatchAt(haystack, needle, k)
    decreases |haystack| - from
  {
    if from + |needle| > |haystack| then None
    else if haystack[from..from + |needle|] == needle then Some(from)
    else StrPosFrom(haystack, needle, from + 1)
  }

  /** `strpos(haystack, needle)`: the offset of the first occurrence, if any. */
  function StrPos(haystack: string, needle: string): (r: Option<nat>)
    requires |needle| > 0
    ensures r.Some? <==> Contains(haystack, needle)
    ensures r.Some? ==> MatchAt(haystack, needle, r.value)
    ensures r.Some? ==> forall k :: 0 <= k < r.value ==> !MatchAt(haystack, needle, k)
  {
    StrPosFrom(haystack, needle, 0)
  }

  /** PHP truthiness of `strpos(...)`: an offset of 0 is as false as "not found".
      So it holds exactly when the needle occurs but the haystack does not start with it. */
  lemma StrPosTruthy(haystack: string, needle: string)
    requires |needle| > 0
    ensures (StrPos(haystack, needle).Some? && StrPos(haystack, needle).value != 0)
      <==> (Contains(haystack, needle) && !MatchAt(haystack, needle, 0))
  {
  }

  /** `str_replace(search, replace, subject)` for a non-empty search string:
      every occurrence, scanned left to right without overlaps, is replaced;
      a subject without the search string comes back unchanged. */
  function StrReplace(s: string, search: string, replace: string): (r: string)
    requires |search| > 0
    ensures !Contains(s, search) ==> r == s
  {
    if |s| < |search| then s
    else if s[..|search|] == search then
      assert MatchAt(s, search, 0);
      replace + StrReplace(s[|search|..], search, replace)
    else
      ContainsTail(s, search);
      [s[0]] + StrReplace(s[1..], search, replace)
  }

  lemma ContainsTail(s: string, needle: string)
    requires |s| > 0
    ensures Contains(s[1..], needle) ==> Contains(s, needle)
    ensures [s[0]] + s[1..] == s
  {
    if Contains(s[1..], needle) {
      var k :| 0 <= k <= |s[1..]| - |needle| && MatchAt(s[1..], needle, k);
      assert s[1..][k..k + |needle|] == s[k + 1..k + 1 + |needle|];
      assert MatchAt(s, needle, k + 1);
    }
  }

  /** What `str_replace` does, stated without its scan: the subject is a list of
      pieces, none holding the search string, joined by the search string; the
      result is the same pieces joined by the replacement. */
  lemma {:induction false} StrReplaceSplits(s: string, search: string, replace: string) returns (pieces: seq<string>)
    requires |search| > 0
    ensures |pieces| > 0
    ensures Join(pieces, search) == s
    ensures StrReplace(s, search, replace) == Join(pieces, replace)
    ensures forall k :: 0 <= k < |pieces| ==> !Contains(pieces[k], search)
    decreases |s|
  {
    if |s| < |search| {
      pieces := [s];
    } else if s[..|search|] == search {
      var rest := StrReplaceSplits(s[|search|..], search, replace);
      ScanReplaces(s, search, replace);
      pieces := [""] + rest;
      SplitAfterMatch(s, search, replace, rest);
    } else {
      var rest := StrReplaceSplits(s[1..], search, replace);
      ScanCopies(s, search, replace);
      pieces := [[s[0]] + rest[0]] + rest[1..];
      SplitAfterCopy(s, search, replace, rest);
    }
  }

  lemma SplitAfterMatch(s: string, search: string, replace: string, rest: seq<string>)
    requires |search| > 0 && |s| >= |search| && s[..|search|] == search
    requires |rest| > 0 && Join(rest, search) == s[|search|..]
    ensures Join([""] + rest, search) == s
    ensures Join([""] + rest, replace) == replace + Join(rest, replace)
  {
    JoinCons("", rest, search);
    JoinCons("", rest, replace);
    EmptyConcat(search, Join(rest, search));
    EmptyConcat(replace, Join(rest, replace));
    assert s == s[..|search|] + s[|search|..];
  }

  lemma SplitAfterCopy(s: string, search: string, replace: string, rest: seq<string>)
    requires |search| > 0 && |s| >= |search| && s[..|search|] != search
    requires |rest| > 0 && Join(rest, search) == s[1..]
    requires forall k :: 0 <= k < |rest| ==> !Contains(rest[k], search)
    ensures var pieces := [[s[0]] + rest[0]] + rest[1..];
            && Join(pieces, search) == s
            && Join(pieces, replace) == [s[0]] + Join(rest, replace)
            && forall k :: 0 <= k < |pieces| ==> !Contains(pieces[k], search)
  {
    var pieces := [[s[0]] + rest[0]] + rest[1..];
    JoinFront(s[0], rest, search);
    JoinFront(s[0], rest, replace);
    ContainsTail(s, search);
    FrontPieceClean(s, search, rest);
    forall k | 1 <= k < |pieces| ensures !Contains(pieces[k], search) {
      assert pieces[k] == rest[k];
    }
  }

  lemma EmptyConcat(a: string, b: string)
    ensures "" + a + b == a + b
  {
  }

  lemma JoinCons(p: string, rest: seq<string>, sep: string)
    requires |rest| > 0
    ensures Join([p] + rest, sep) == p + sep + Join(rest, sep)
  {
    assert ([p] + rest)[1..] == rest;
  }

  lemma JoinFront(c: char, rest: seq<string>, sep: string)
    requires |rest| > 0
    ensures Join([[c] + rest[0]] + rest[1..], sep) == [c] + Join(rest, sep)
  {
    assert ([[c] + rest[0]] + rest[1..])[1..] == rest[1..];
  }

  lemma JoinStarts(pieces: seq<string>, sep: string)
    requires |pieces| > 0
    ensures |pieces[0]| <= |Join(pieces, sep)| && Join(pieces, sep)[..|pieces[0]|] == pieces[0]
  {
  }

  /** Gluing the scanned character back onto the first piece of the rest makes
      no occurrence: the scan did not match there, and the piece had none. */
  lemma FrontPieceClean(s: string, search: string, rest: seq<string>)
    requires |search| > 0 && |s| >= |search| && s[..|search|] != search
    requires |rest| > 0 && Join(rest, search) == s[1..]
    requires !Contains(rest[0], search)
    ensures !Contains([s[0]] + rest[0], search)
  {
    var n := |search|;
    var piece := [s[0]] + rest[0];
    JoinStarts(rest, search);
    PieceIsPrefix(s, rest[0]);
    if n <= |piece| {
      assert piece[..n] == s[..n];
    }
    AfterCopyClean(s[0], search, rest[0]);
  }

  lemma PieceIsPrefix(s: string, p: string)
    requires |s| > 0 && |p| <= |s[1..]| && s[1..][..|p|] == p
    ensures [s[0]] + p == s[..1 + |p|]
  {
  }

  /** No occurrence of `search` can start inside `replace`, whatever follows it. */
  predicate NoOverlap(replace: string, search: string)
  {
    forall p :: 0 <= p < |replace| ==> MismatchFrom(replace, search, p)
  }

  /** Some character of `search`, laid over `replace` from offset `p`, differs. */
  predicate MismatchFrom(replace: string, search: string, p: nat)
  {
    exists i :: 0 <= i < |search| && p + i < |replace| && replace[p + i] != search[i]
  }

  /** When the replacement cannot take part in an occurrence of the search string
      (none starts inside it, and its first character occurs in the search string
      only at the front), `str_replace` leaves no occurrence behind. */
  lemma {:induction false} StrReplaceRemovesAll(s: string, search: string, replace: string)
    requires |search| > 0 && |replace| > 0
    requires replace[0] !in search[1..]
    requires NoOverlap(replace, search)
    ensures !Contains(StrReplace(s, search, replace), search)
    decreases |s|
  {
    var n := |search|;
    if |s| < n {
    } else if s[..n] == search {
      StrReplaceRemovesAll(s[n..], search, replace);
      AfterReplacementClean(search, replace, StrReplace(s[n..], search, replace));
    } else {
      StrReplaceRemovesAll(s[1..], search, replace);
      CopyStartNoMatch(s, search, replace);
      AfterCopyClean(s[0], search, StrReplace(s[1..], search, replace));
    }
  }

  /** The replacement followed by a clean rest is clean. */
  lemma AfterReplacementClean(search: string, replace: string, t: string)
    requires |search| > 0 && NoOverlap(replace, search)
    requires !Contains(t, search)
    ensures !Contains(replace + t, search)
  {
    var n := |search|;
    var r := replace + t;
    forall k | 0 <= k <= |r| - n ensures !MatchAt(r, search, k) {
      if k < |replace| {
        assert MismatchFrom(replace, search, k);
        var i :| 0 <= i < n && k + i < |replace| && replace[k + i] != search[i];
        assert r[k..k + n][i] == r[k + i] == replace[k + i];
      } else {
        assert r[k..k + n] == t[k - |replace|..k - |replace| + n];
        assert !MatchAt(t, search, k - |replace|);
      }
    }
  }

  /** A character the scan copied, followed by the clean result of the rest, is
      clean when no occurrence starts at that character. */
  lemma AfterCopyClean(c: char, search: string, t: string)
    requires |search| > 0 && !Contains(t, search)
    requires !MatchAt([c] + t, search, 0)
    ensures !Contains([c] + t, search)
  {
    var n := |search|;
    var r := [c] + t;
    forall k | 1 <= k <= |r| - n ensures !MatchAt(r, search, k) {
      assert r[k..k + n] == t[k - 1..k - 1 + n];
      assert !MatchAt(t, search, k - 1);
    }
  }

  lemma CopyStartNoMatch(s: string, search: string, replace: string)
    requires |search| > 0 && |replace| > 0 && replace[0] !in search[1..]
    requires |s| >= |search| && s[..|search|] != search
    ensures !MatchAt(StrReplace(s, search, replace), search, 0)
  {
    var n := |search|;
    var t := StrReplace(s[1..], search, replace);
    ScanCopies(s, search, replace);
    if n - 1 <= |t| {
      CopiedPrefix(s[1..], search, replace, t[..n - 1]);
      FirstCharNoMatch(s, search, replace[0], t);
    }
  }

  lemma FirstCharNoMatch(s: string, search: string, x: char, t: string)
    requires |search| > 0 && |s| >= |search| && s[..|search|] != search
    requires x !in search[1..] && |search| - 1 <= |t|
    requires x !in t[..|search| - 1] ==> s[1..][..|search| - 1] == t[..|search| - 1]
    ensures !MatchAt([s[0]] + t, search, 0)
  {
    var n := |search|;
    var w := t[..n - 1];
    assert ([s[0]] + t)[..n] == [s[0]] + w;
    assert search == [search[0]] + search[1..];
    if x in w {
      assert w != search[1..];
    } else {
      assert s[..n] == [s[0]] + s[1..][..n - 1];
    }
  }

  /** One step of the scan: no match at the front copies the first character. */
  lemma ScanCopies(s: string, search: string, replace: string)
    requires |search| > 0 && |s| >= |search| && s[..|search|] != search
    ensures StrReplace(s, search, replace) == [s[0]] + StrReplace(s[1..], search, replace)
  {
  }

  /** One step of the scan: a match at the front is replaced. */
  lemma ScanReplaces(s: string, search: string, replace: string)
    requires |search| > 0 && |s| >= |search| && s[..|search|] == search
    ensures StrReplace(s, search, replace) == replace + StrReplace(s[|search|..], search, replace)
  {
  }

  /** A prefix of the result without the replacement's first character was
      copied from the subject. */
  lemma {:induction false} CopiedPrefix(t: string, search: string, replace: string, w: string)
    requires |search| > 0 && |replace| > 0
    requires |w| <= |StrReplace(t, search, replace)| && StrReplace(t, search, replace)[..|w|] == w
    ensures replace[0] !in w ==> |w| <= |t| && t[..|w|] == w
    decreases |t|
  {
    var r := StrReplace(t, search, replace);
    if w != [] && |t| >= |search| {
      if t[..|search|] == search {
        assert r == replace + StrReplace(t[|search|..], search, replace);
        assert w[0] == r[0] == replace[0];
      } else {
        var r' := StrReplace(t[1..], search, replace);
        assert r == [t[0]] + r';
        assert r[..|w|] == [t[0]] + r'[..|w| - 1];
        assert r'[..|w| - 1] == w[1..];
        CopiedPrefix(t[1..], search, replace, w[1..]);
        if replace[0] !in w {
          assert replace[0] !in w[1..];
          assert t[..|w|] == [t[0]] + t[1..][..|w| - 1];
        }
      }
    }
  }


  /** `str_replace` makes no new occurrence of a text that cannot start inside
      the replacement and does not hold the replacement's first character:
      such an occurrence lies within copied text, which came from the subject. */
  lemma {:induction false} StrReplaceAddsNone(s: string, search: string, replace: string, keep: string)
    requires |search| > 0 && |replace| > 0 && |keep| > 0
    requires keep[0] !in replace && replace[0] !in keep
    ensures Contains(StrReplace(s, search, replace), keep) ==> Contains(s, keep)
    decreases |s|
  {
    var r := StrReplace(s, search, replace);
    if Contains(r, keep) {
      var k :| 0 <= k <= |r| - |keep| && MatchAt(r, keep, k);
      if k == 0 {
        assert r[..|keep|] == keep;
        CopiedPrefix(s, search, replace, keep);
        assert MatchAt(s, keep, 0);
      } else if |s| < |search| {
        assert MatchAt(s, keep, k);
      } else if s[..|search|] == search {
        ScanReplaces(s, search, replace);
        assert r[k] == r[k..k + |keep|][0] == keep[0];
        assert forall i :: 0 <= i < |replace| ==> r[i] == replace[i];
        assert k >= |replace|;
        MatchShift(r, keep, k, |replace|);
        assert r[|replace|..] == StrReplace(s[|search|..], search, replace);
        StrReplaceAddsNone(s[|search|..], search, replace, keep);
        ContainsFromSuffix(s, |search|, keep);
      } else {
        ScanCopies(s, search, replace);
        MatchShift(r, keep, k, 1);
        assert r[1..] == StrReplace(s[1..], search, replace);
        StrReplaceAddsNone(s[1..], search, replace, keep);
        ContainsFromSuffix(s, 1, keep);
      }
    }
  }

  lemma MatchShift(s: string, needle: string, k: int, m: nat)
    requires MatchAt(s, needle, k) && m <= k
    ensures MatchAt(s[m..], needle, k - m)
  {
    assert s[m..][k - m..k - m + |needle|] == s[k..k + |needle|];
  }

  lemma ContainsFromSuffix(s: string, m: nat, needle: string)
    requires m <= |s| && Contains(s[m..], needle)
    ensures Contains(s, needle)
  {
    var j :| 0 <= j <= |s[m..]| - |needle| && MatchAt(s[m..], needle, j);
    assert s[m + j..m + j + |needle|] == s[m..][j..j + |needle|];
    assert MatchAt(s, needle, m + j);
  }

  /** A text holding `long` holds every prefix of it. */
  lemma ContainsPrefixOf(s: string, long: string, short: string)
    requires |short| <= |long| && long[..|short|] == short
    ensures Contains(s, long) ==> Contains(s, short)
  {
    if Contains(s, long) {
      var j :| 0 <= j <= |s| - |long| && MatchAt(s, long, j);
      assert s[j..j + |short|] == s[j..j + |long|][..|short|];
      assert MatchAt(s, short, j);
    }
  }

  /** A subject that holds the search string gets the replacement somewhere. */
  lemma {:induction false} StrReplacePresent(s: string, search: string, replace: string)
    requires |search| > 0
    requires Contains(s, search)
    ensures Contains(StrReplace(s, search, replace), replace)
  {
    var r := StrReplace(s, search, replace);
    if s[..|search|] == search {
      assert r[..|replace|] == replace;
      assert MatchAt(r, replace, 0);
    } else {
      var k :| 0 <= k <= |s| - |search| && MatchAt(s, search, k);
      assert k != 0;
      assert s[1..][k - 1..k - 1 + |search|] == s[k..k + |search|];
      assert MatchAt(s[1..], search, k - 1);
      StrReplacePresent(s[1..], search, replace);
      var t := StrReplace(s[1..], search, replace);
      var j :| 0 <= j <= |t| - |replace| && MatchAt(t, replace, j);
      assert r == [s[0]] + t;
      assert r[j + 1..j + 1 + |replace|] == t[j..j + |replace|];
      assert MatchAt(r, replace, j + 1);
    }
  }

  // ---------------------------------------------------------------------
  // array_unique, array_search, unset on lists of strings
  // ---------------------------------------------------------------------

  predicate NoDup(s: seq<string>)
  {
    forall i, j :: 0 <= i < j < |s| ==> s[i] != s[j]
  }

  /** `array_unique(s)` on a list: keeps the first occurrence of each value, in order. */
  function Unique(s: seq<string>): (r: seq<string>)
    ensures NoDup(r)
    ensures forall x :: x in r <==> x in s
    ensures s != [] ==> r != [] && r[0] == s[0]
  {
    if s == [] then []
    else
      var u := Unique(s[..|s| - 1]);
      if s[|s| - 1] in u then u else u + [s[|s| - 1]]
  }

  /** A list that has no duplicates is left as it is. */
  lemma {:induction false} UniqueOfNoDup(s: seq<string>)
    requires NoDup(s)
    ensures Unique(s) == s
  {
    if s != [] {
      UniqueOfNoDup(s[..|s| - 1]);
      assert s[|s| - 1] !in s[..|s| - 1];
      assert s[..|s| - 1] + [s[|s| - 1]] == s;
    }
  }

  /** `array_search(x, s, true)`: the first key holding `x`. */
  function IndexOf(s: seq<string>, x: string): (r: Option<nat>)
    ensures r.Some? <==> x in s
    ensures r.Some? ==> r.value < |s| && s[r.value] == x
    ensures r.Some? ==> forall k :: 0 <= k < r.value ==> s[k] != x
  {
    if s == [] then None
    else if s[0] == x then Some(0)
    else match IndexOf(s[1..], x)
      case None => None
      case Some(k) => Some(k + 1)
  }

  /** `unset(s[k])`, with the keys of the rest read in order. */
  function RemoveAt(s: seq<string>, k: nat): (r: seq<string>)
    requires k < |s|
    ensures |r| == |s| - 1
    ensures forall x :: x in r ==> x in s
    ensures forall x :: x in s && x != s[k] ==> x in r
  {
    s[..k] + s[k + 1..]
  }

  lemma RemoveAtNoDup(s: seq<string>, k: nat)
    requires NoDup(s) && k < |s|
    ensures NoDup(RemoveAt(s, k)) && s[k] !in RemoveAt(s, k)
  {
    var r := RemoveAt(s, k);
    forall i | 0 <= i < |r| ensures r[i] != s[k] {
      if i < k { assert r[i] == s[i]; } else { assert r[i] == s[i + 1]; }
    }
  }
}
