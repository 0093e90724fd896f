/** The employee-name pattern of the roster parser (internal/excel/private.go:89):

      [A-Z](?:[A-Za-z]|['-][A-Z])*(?:\s+[A-Z](?:[A-Za-z]|['-][A-Z])*)+

    A TOKEN is an upper-case letter followed by letters, or by an apostrophe or hyphen that is
    immediately followed by an upper-case letter. A NAME is two or more tokens separated by runs of
    white space. `IsName` is the language of the pattern, stated declaratively; `Find` is what Go's
    regexp (leftmost-first, greedy) returns, written as a scanner. The lemmas at the end prove that
    the scanner finds a match exactly when the cell holds a name-shaped substring, and that the match
    it finds is the leftmost and, at that start, the longest one. */
module NamePattern {
  import opened Model

  /** [A-Z] */
  predicate IsUpper(c: char) { 'A' <= c <= 'Z' }

  /** [A-Za-z] */
  predicate IsLetter(c: char) { 'A' <= c <= 'Z' || 'a' <= c <= 'z' }

  /** ['-] */
  predicate IsJoiner(c: char) { c == '\'' || c == '-' }

  /** \s in Go's regexp syntax: space, tab, newline, form feed, carriage return. */
  predicate IsSpace(c: char) { c == ' ' || c == '\t' || c == '\n' || c == '\U{C}' || c == '\r' }

  // ------------------------------------------------------------------
  // The language of the pattern
  // ------------------------------------------------------------------

  /** (?:[A-Za-z]|['-][A-Z])* */
  predicate TokenTail(t: string)
    decreases |t|
  {
    || t == []
    || (IsLetter(t[0]) && TokenTail(t[1..]))
    || (|t| >= 2 && IsJoiner(t[0]) && IsUpper(t[1]) && TokenTail(t[2..]))
  }

  predicate IsToken(t: string)
  {
    |t| > 0 && IsUpper(t[0]) && TokenTail(t[1..])
  }

  /** \s+ */
  predicate IsBlank(w: string)
  {
    |w| > 0 && forall k | 0 <= k < |w| :: IsSpace(w[k])
  }

  /** The whole of `s` matches the pattern: it splits as in `NameAt` at some i and j. */
  ghost predicate IsName(s: string)
    decreases |s|, 1
  {
    exists i, j :: NameAt(s, i, j)
  }

  /** `s` is a token s[..i], white space s[i..j], then a token or (recursively) a name s[j..]. */
  ghost predicate NameAt(s: string, i: int, j: int)
    decreases |s|, 0
  {
    && 0 < i < j < |s|
    && IsToken(s[..i]) && IsBlank(s[i..j])
    && (IsToken(s[j..]) || IsName(s[j..]))
  }

  /** `sub` occurs in `s` at some position. */
  predicate IsSubstring(sub: string, s: string)
  {
    exists i, j | 0 <= i <= j <= |s| :: s[i..j] == sub
  }

  // ------------------------------------------------------------------
  // The matcher: leftmost-first, greedy, as Go's regexp runs the pattern
  // ------------------------------------------------------------------

  /** The character at q lets a token go on: a letter, or a joiner before an upper-case letter. */
  predicate ExtendsToken(s: string, q: nat)
  {
    q < |s| && (IsLetter(s[q]) || (q + 1 < |s| && IsJoiner(s[q]) && IsUpper(s[q + 1])))
  }

  /** Where the greedy token tail that starts at p ends: at a position nothing can extend. */
  function TokenEnd(s: string, p: nat): (q: nat)
    requires p <= |s|
    ensures p <= q <= |s|
    ensures !ExtendsToken(s, q)
    decreases |s| - p
  {
    if p < |s| && IsLetter(s[p]) then TokenEnd(s, p + 1)
    else if p + 1 < |s| && IsJoiner(s[p]) && IsUpper(s[p + 1]) then TokenEnd(s, p + 2)
    else p
  }

  /** What the greedy token tail takes is a token tail. */
  lemma {:induction false} TokenEndSound(s: string, p: nat)
    requires p <= |s|
    ensures TokenTail(s[p..TokenEnd(s, p)])
    decreases |s| - p
  {
    var q := TokenEnd(s, p);
    if p < |s| && IsLetter(s[p]) {
      TokenEndSound(s, p + 1);
      assert s[p..q][1..] == s[p + 1..q];
    } else if p + 1 < |s| && IsJoiner(s[p]) && IsUpper(s[p + 1]) {
      TokenEndSound(s, p + 2);
      assert s[p..q][2..] == s[p + 2..q];
    }
  }

  /** Where the run of white space that starts at p ends. */
  function BlankEnd(s: string, p: nat): (q: nat)
    requires p <= |s|
    ensures p <= q <= |s|
    ensures forall k | p <= k < q :: IsSpace(s[k])
    ensures q == |s| || !IsSpace(s[q])
    decreases |s| - p
  {
    if p < |s| && IsSpace(s[p]) then BlankEnd(s, p + 1) else p
  }

  /** A match that so far ends at e takes one more group of white space and a token while the
      text allows it (the greedy (?:\s+TOKEN)+). */
  function GroupsEnd(s: string, e: nat): (q: nat)
    requires e <= |s|
    ensures e <= q <= |s|
    decreases |s| - e
  {
    var w := BlankEnd(s, e);
    if e < w < |s| && IsUpper(s[w]) then GroupsEnd(s, TokenEnd(s, w + 1)) else e
  }

  /** The end of the match that starts at i, if one starts there. */
  function MatchEnd(s: string, i: nat): (r: Option<nat>)
    requires i <= |s|
    ensures r.Some? ==> i < r.value <= |s|
  {
    if i < |s| && IsUpper(s[i]) then
      var e := TokenEnd(s, i + 1);
      var w := BlankEnd(s, e);
      if e < w < |s| && IsUpper(s[w]) then Some(GroupsEnd(s, TokenEnd(s, w + 1))) else None
    else
      None
  }

  /** The positions [start, stop) of a match in the cell text. */
  datatype Span = Span(start: nat, stop: nat)

  /** The first match that starts at i or later. */
  function FindFrom(s: string, i: nat): (r: Option<Span>)
    requires i <= |s|
    ensures r.Some? ==> i <= r.value.start < r.value.stop <= |s|
    decreases |s| - i
  {
    if i == |s| then None
    else
      match MatchEnd(s, i)
      case Some(e) => Some(Span(i, e))
      case None => FindFrom(s, i + 1)
  }

  function Find(s: string): Option<Span>
  {
    FindFrom(s, 0)
  }

  /** regexp.MatchString */
  predicate MatchString(s: string)
  {
    Find(s).Some?
  }

  /** regexp.FindString: the leftmost match, or "" when there is none. */
  function FindString(s: string): string
  {
    match Find(s)
    case Some(m) => s[m.start..m.stop]
    case None => ""
  }

  // ------------------------------------------------------------------
  // Soundness: what the matcher finds is a name
  // ------------------------------------------------------------------

  lemma TokenAt(s: string, i: nat)
    requires i < |s| && IsUpper(s[i])
    ensures IsToken(s[i..TokenEnd(s, i + 1)])
  {
    var q := TokenEnd(s, i + 1);
    TokenEndSound(s, i + 1);
    assert s[i..q][1..] == s[i + 1..q];
  }

  /** A token or a name, then white space and a token, is a name. */
  lemma {:induction false} AppendGroup(x: string, w: string, y: string)
    requires IsToken(x) || IsName(x)
    requires IsBlank(w) && IsToken(y)
    ensures IsName(x + w + y)
    decreases |x|
  {
    var z := x + w + y;
    if IsToken(x) {
      ConcatSlices(x, w + y, |x|, |x|);
      ConcatSlices(w, y, |w|, |w|);
      assert z == x + (w + y);
      assert NameAt(z, |x|, |x| + |w|);
    } else {
      var i, j :| NameAt(x, i, j);
      AppendGroup(x[j..], w, y);
      ConcatSlices(x, w + y, i, j);
      assert z == x + (w + y) && x[j..] + (w + y) == x[j..] + w + y;
      assert NameAt(z, i, j);
    }
  }

  /** Cutting x + rest at positions inside x. */
  lemma ConcatSlices(x: string, rest: string, i: nat, j: nat)
    requires i <= j <= |x|
    ensures (x + rest)[..i] == x[..i]
    ensures (x + rest)[i..j] == x[i..j]
    ensures (x + rest)[j..] == x[j..] + rest
  {
    assert forall k | 0 <= k < |x| - j + |rest| :: (x + rest)[j..][k] == (x[j..] + rest)[k];
  }

  lemma {:induction false} GroupsEndSound(s: string, a: nat, e: nat)
    requires a < e <= |s| && IsName(s[a..e])
    ensures IsName(s[a..GroupsEnd(s, e)])
    decreases |s| - e
  {
    var w := BlankEnd(s, e);
    if e < w < |s| && IsUpper(s[w]) {
      NameThenGroup(s, a, e, w);
      GroupsEndSound(s, a, TokenEnd(s, w + 1));
      GroupsStep(s, e, w);
    } else {
      GroupsStop(s, e);
    }
  }

  /** Without white space and an upper-case letter after e, the greedy groups take nothing. */
  lemma GroupsStop(s: string, e: nat)
    requires e <= |s|
    requires !(e < BlankEnd(s, e) < |s| && IsUpper(s[BlankEnd(s, e)]))
    ensures GroupsEnd(s, e) == e
  {
  }

  /** A token or a name s[a..e], the white space after it and the token at w form a name. */
  lemma NameThenGroup(s: string, a: nat, e: nat, w: nat)
    requires a < e < w < |s| && IsUpper(s[w])
    requires IsToken(s[a..e]) || IsName(s[a..e])
    requires BlankEnd(s, e) == w
    ensures IsName(s[a..TokenEnd(s, w + 1)])
  {
    var t := TokenEnd(s, w + 1);
    TokenAt(s, w);
    assert IsBlank(s[e..w]);
    AppendGroup(s[a..e], s[e..w], s[w..t]);
    SliceConcat(s, a, e, w, t);
  }

  /** How the matcher reads a match at i: its first token ends at e, the white space after it at w,
      and the groups go on from the token at w. */
  lemma MatchEndParts(s: string, i: nat) returns (e: nat, w: nat)
    requires i <= |s| && MatchEnd(s, i).Some?
    ensures i < e < w < |s| && IsUpper(s[i]) && IsUpper(s[w])
    ensures e == TokenEnd(s, i + 1) && w == BlankEnd(s, e)
    ensures MatchEnd(s, i).value == GroupsEnd(s, TokenEnd(s, w + 1))
  {
    e := TokenEnd(s, i + 1);
    w := BlankEnd(s, e);
  }

  lemma MatchEndSound(s: string, i: nat)
    requires i <= |s| && MatchEnd(s, i).Some?
    ensures IsName(s[i..MatchEnd(s, i).value])
  {
    var e, w := MatchEndParts(s, i);
    TokenAt(s, i);
    NameThenGroup(s, i, e, w);
    GroupsEndSound(s, i, TokenEnd(s, w + 1));
  }

  // ------------------------------------------------------------------
  // Completeness: every name in the text is reached by the matcher
  // ------------------------------------------------------------------

  /** The greedy token tail reaches every end of a token tail, and stops exactly at one that
      cannot go on. */
  lemma {:induction false} TokenReach(s: string, p: nat, q: nat)
    requires p <= q <= |s| && TokenTail(s[p..q])
    ensures q <= TokenEnd(s, p)
    ensures !ExtendsToken(s, q) ==> TokenEnd(s, p) == q
    decreases q - p
  {
    if p < q {
      var t := s[p..q];
      if IsLetter(t[0]) {
        assert t[1..] == s[p + 1..q];
        TokenReach(s, p + 1, q);
      } else {
        assert t[2..] == s[p + 2..q];
        TokenReach(s, p + 2, q);
      }
    }
  }

  lemma BlankEndExact(s: string, p: nat, q: nat)
    requires p <= q <= |s|
    requires forall k | p <= k < q :: IsSpace(s[k])
    requires q == |s| || !IsSpace(s[q])
    ensures BlankEnd(s, p) == q
  {
  }

  /** A name or a token starts with an upper-case letter. */
  lemma StartsUpper(x: string)
    requires IsToken(x) || IsName(x)
    ensures |x| > 0 && IsUpper(x[0])
  {
    if !IsToken(x) {
      var i, j :| NameAt(x, i, j);
      assert x[..i][0] == x[0];
    }
  }

  /** A name s[i..b] splits at positions of s into a token, white space, and a token or a name. */
  lemma NameSplit(s: string, i: nat, b: nat) returns (e: nat, w: nat)
    requires i <= b <= |s| && IsName(s[i..b])
    ensures i < e < w < b
    ensures IsToken(s[i..e]) && IsBlank(s[e..w]) && (IsToken(s[w..b]) || IsName(s[w..b]))
  {
    var x := s[i..b];
    var k, j :| NameAt(x, k, j);
    e, w := i + k, i + j;
    SliceOfSlice(s, i, b, 0, k);
    SliceOfSlice(s, i, b, k, j);
    SliceOfSlice(s, i, b, j, b - i);
  }

  /** Adjacent slices concatenate to the slice that spans them. */
  lemma SliceConcat(s: string, a: nat, e: nat, w: nat, t: nat)
    requires a <= e <= w <= t <= |s|
    ensures s[a..e] + s[e..w] + s[w..t] == s[a..t]
  {
    assert forall k | 0 <= k < t - a :: (s[a..e] + s[e..w] + s[w..t])[k] == s[a + k];
  }

  /** A slice of a slice is a slice. */
  lemma SliceOfSlice(s: string, i: nat, b: nat, p: nat, q: nat)
    requires i <= b <= |s| && p <= q <= b - i
    ensures s[i..b][p..q] == s[i + p..i + q]
  {
    assert forall t | 0 <= t < q - p :: s[i..b][p..q][t] == s[i + p + t];
  }

  /** The characters of white space s[e..w] are spaces, read at their positions in s. */
  lemma BlankAt(s: string, e: nat, w: nat)
    requires e <= w <= |s| && IsBlank(s[e..w])
    ensures forall m | e <= m < w :: IsSpace(s[m])
  {
    forall m | e <= m < w ensures IsSpace(s[m]) {
      assert s[m] == s[e..w][m - e];
    }
  }

  /** The first token and white space of a name that starts at i are where the matcher puts them. */
  lemma FirstGroup(s: string, i: nat, b: nat) returns (e: nat, w: nat)
    requires i <= b <= |s| && IsName(s[i..b])
    ensures i < e < w < b && IsUpper(s[i]) && IsUpper(s[w])
    ensures TokenEnd(s, i + 1) == e && BlankEnd(s, e) == w
    ensures IsToken(s[w..b]) || IsName(s[w..b])
  {
    e, w := NameSplit(s, i, b);
    StartsUpper(s[i..e]);
    assert s[i..e][0] == s[i];
    StartsUpper(s[w..b]);
    assert s[w..b][0] == s[w];
    BlankAt(s, e, w);
    TokenTailAfter(s, i, e);
    TokenReach(s, i + 1, e);
    BlankEndExact(s, e, w);
  }

  /** After a token that ends at e, white space up to w and an upper-case letter at w, the greedy
      groups take the token at w and go on from its end. */
  lemma GroupsStep(s: string, e: nat, w: nat)
    requires e < w < |s| && BlankEnd(s, e) == w && IsUpper(s[w])
    ensures GroupsEnd(s, e) == GroupsEnd(s, TokenEnd(s, w + 1))
  {
  }

  /** The tail of a token that starts at w is a token tail from w + 1. */
  lemma TokenTailAfter(s: string, w: nat, b: nat)
    requires w < b <= |s| && IsToken(s[w..b])
    ensures TokenTail(s[w + 1..b])
  {
    assert s[w..b][1..] == s[w + 1..b];
  }

  lemma {:induction false} GroupsReach(s: string, w: nat, b: nat)
    requires w < b <= |s| && (IsToken(s[w..b]) || IsName(s[w..b]))
    ensures b <= GroupsEnd(s, TokenEnd(s, w + 1))
    decreases b - w
  {
    if IsName(s[w..b]) {
      var e, w' := FirstGroup(s, w, b);
      GroupsReach(s, w', b);
      GroupsStep(s, e, w');
    } else {
      TokenTailAfter(s, w, b);
      TokenReach(s, w + 1, b);
    }
  }

  /** A name that starts at i is covered by the match the matcher finds at i. */
  lemma MatchEndComplete(s: string, i: nat, b: nat)
    requires i <= b <= |s| && IsName(s[i..b])
    ensures MatchEnd(s, i).Some? && b <= MatchEnd(s, i).value
  {
    var e, w := FirstGroup(s, i, b);
    GroupsReach(s, w, b);
    MatchEndAt(s, i, e, w);
  }

  /** A token at i, then white space up to an upper-case letter at w, starts a match. */
  lemma MatchEndAt(s: string, i: nat, e: nat, w: nat)
    requires i < e < w < |s| && IsUpper(s[i]) && IsUpper(s[w])
    requires e == TokenEnd(s, i + 1) && w == BlankEnd(s, e)
    ensures MatchEnd(s, i) == Some(GroupsEnd(s, TokenEnd(s, w + 1)))
  {
  }

  /** No name-shaped substring of `s` starts at lo or later and before hi. */
  ghost predicate NoNameStarts(s: string, lo: int, hi: int)
  {
    forall a, b | 0 <= lo <= a < hi && a <= b <= |s| :: !IsName(s[a..b])
  }

  /** A name holds at least two tokens and a separator, hence some white space. */
  lemma NameHasSpace(x: string)
    requires IsName(x)
    ensures exists k | 0 <= k < |x| :: IsSpace(x[k])
  {
    var i, j :| NameAt(x, i, j);
    assert x[i..j][0] == x[i];
  }

  /** No name starts at i when the matcher finds none there. */
  lemma NoMatchAt(s: string, i: nat)
    requires i <= |s| && MatchEnd(s, i).None?
    ensures forall b | i <= b <= |s| :: !IsName(s[i..b])
  {
    forall b | i <= b <= |s| ensures !IsName(s[i..b]) {
      if IsName(s[i..b]) {
        MatchEndComplete(s, i, b);
      }
    }
  }

  lemma NameLength(x: string)
    requires IsName(x)
    ensures |x| >= 3
  {
    var i, j :| NameAt(x, i, j);
  }

  /** No name starts at the very end of the text. */
  lemma NoNameAtEnd(s: string)
    ensures NoNameStarts(s, |s|, |s| + 1)
  {
    forall b | |s| <= b <= |s| ensures !IsName(s[|s|..b]) {
      if IsName(s[|s|..b]) {
        NameLength(s[|s|..b]);
      }
    }
  }

  /** A position where the matcher fails joins the stretch after it that holds no name start. */
  lemma NoNameStartsBefore(s: string, i: nat, hi: int)
    requires i < hi && i <= |s| && MatchEnd(s, i).None?
    requires NoNameStarts(s, i + 1, hi)
    ensures NoNameStarts(s, i, hi)
  {
    NoMatchAt(s, i);
    forall a, b | i <= a < hi && a <= b <= |s| ensures !IsName(s[a..b]) {
      if a > i {
        assert NoNameStarts(s, i + 1, hi);
      }
    }
  }

  /** The search from i stops at a position where the matcher succeeds, and reports its match. */
  lemma {:induction false} FindFromHit(s: string, i: nat)
    requires i <= |s| && FindFrom(s, i).Some?
    ensures MatchEnd(s, FindFrom(s, i).value.start) == Some(FindFrom(s, i).value.stop)
    decreases |s| - i
  {
    if MatchEnd(s, i).None? {
      assert FindFrom(s, i) == FindFrom(s, i + 1);
      FindFromHit(s, i + 1);
    }
  }

  /** The search from i passes over no name start: it fails only when no name starts at i or
      later, and otherwise no name starts between i and its match. */
  lemma {:induction false} FindFromLeftmost(s: string, i: nat)
    requires i <= |s|
    ensures FindFrom(s, i).None? ==> NoNameStarts(s, i, |s| + 1)
    ensures FindFrom(s, i).Some? ==> NoNameStarts(s, i, FindFrom(s, i).value.start)
    decreases |s| - i
  {
    if i == |s| {
      NoNameAtEnd(s);
    } else if MatchEnd(s, i).None? {
      FindFromLeftmost(s, i + 1);
      FindFromMiss(s, i);
    } else {
      assert FindFrom(s, i).value.start == i;
    }
  }

  /** Where the matcher fails at i, the search from i is the search from i + 1, and the stretch
      without name starts grows by i. */
  lemma FindFromMiss(s: string, i: nat)
    requires i < |s| && MatchEnd(s, i).None?
    requires FindFrom(s, i + 1).None? ==> NoNameStarts(s, i + 1, |s| + 1)
    requires FindFrom(s, i + 1).Some? ==> NoNameStarts(s, i + 1, FindFrom(s, i + 1).value.start)
    ensures FindFrom(s, i) == FindFrom(s, i + 1)
    ensures FindFrom(s, i).None? ==> NoNameStarts(s, i, |s| + 1)
    ensures FindFrom(s, i).Some? ==> NoNameStarts(s, i, FindFrom(s, i).value.start)
  {
    var r := FindFrom(s, i + 1);
    NoNameStartsBefore(s, i, if r.Some? then r.value.start else |s| + 1);
  }

  // ------------------------------------------------------------------
  // What the roster parser relies on
  // ------------------------------------------------------------------

  /** regexp.MatchString holds exactly when some substring of the cell is name-shaped. */
  lemma MatchStringIff(s: string)
    ensures MatchString(s) <==> exists a, b | 0 <= a <= b <= |s| :: IsName(s[a..b])
  {
    FindFromLeftmost(s, 0);
    if MatchString(s) {
      var m := Find(s).value;
      FindFromHit(s, 0);
      MatchEndSound(s, m.start);
    }
  }

  /** regexp.FindString returns the leftmost name-shaped substring, and at that start the longest. */
  lemma FindStringLeftmostLongest(s: string)
    requires MatchString(s)
    ensures Find(s).value.start < Find(s).value.stop <= |s|
    ensures FindString(s) == s[Find(s).value.start..Find(s).value.stop]
    ensures IsName(FindString(s))
    ensures NoNameStarts(s, 0, Find(s).value.start)
    ensures forall b | Find(s).value.start <= b <= |s| && IsName(s[Find(s).value.start..b]) ::
              b <= Find(s).value.stop
  {
    var m := Find(s).value;
    FindFromLeftmost(s, 0);
    FindFromHit(s, 0);
    MatchEndSound(s, m.start);
    forall b | m.start <= b <= |s| && IsName(s[m.start..b]) ensures b <= m.stop {
      MatchEndComplete(s, m.start, b);
    }
  }

  /** The name taken from a matching cell is itself name-shaped and occurs in the cell. */
  lemma FindStringIsName(s: string)
    requires MatchString(s)
    ensures IsName(FindString(s)) && IsSubstring(FindString(s), s)
  {
    var m := Find(s).value;
    FindFromHit(s, 0);
    MatchEndSound(s, m.start);
    assert s[m.start..m.stop] == FindString(s);
  }

  /** A cell without white space (a single word such as "Monday", or the empty cell) never matches. */
  lemma NoSpaceNoMatch(s: string)
    requires forall k | 0 <= k < |s| :: !IsSpace(s[k])
    ensures !MatchString(s)
  {
    forall a, b | 0 <= a <= b <= |s| ensures !IsName(s[a..b]) {
      if IsName(s[a..b]) {
        NameHasSpace(s[a..b]);
      }
    }
    MatchStringIff(s);
  }

  lemma MondayIsNoName()
    ensures !MatchString("Monday")
  {
    NoSpaceNoMatch("Monday");
  }

  /** A cell that is wholly a name yields itself. */
  lemma WholeCellName(s: string)
    requires IsName(s)
    ensures MatchString(s) && FindString(s) == s
  {
    assert s[0..|s|] == s;
    MatchEndComplete(s, 0, |s|);
  }

  lemma JaneDoeIsAName()
    ensures MatchString("Jane Doe") && FindString("Jane Doe") == "Jane Doe"
  {
    var s := "Jane Doe";
    assert TokenTail("ane") by {
      assert TokenTail("e") && TokenTail("ne");
    }
    assert TokenTail("oe") by {
      assert TokenTail("e");
    }
    assert s[..4] == "Jane" && s[4..5] == " " && s[5..] == "Doe";
    assert NameAt(s, 4, 5);
    WholeCellName(s);
  }

  lemma OBrienAnneIsAName()
    ensures MatchString("O'Brien Anne") && FindString("O'Brien Anne") == "O'Brien Anne"
  {
    var s := "O'Brien Anne";
    assert TokenTail("'Brien") by {
      assert TokenTail("n") && TokenTail("en") && TokenTail("ien") && TokenTail("rien");
      assert "'Brien"[2..] == "rien";
    }
    assert TokenTail("nne") by {
      assert TokenTail("e") && TokenTail("ne");
    }
    assert s[..7] == "O'Brien" && s[7..8] == " " && s[8..] == "Anne";
    assert NameAt(s, 7, 8);
    WholeCellName(s);
  }
}
