/** `sanitize_filename` of split-excalidraw-library.py: turn an icon name
    into a file name by replacing spaces, dropping characters outside
    `[\w\-.]`, collapsing hyphen runs and trimming hyphens.

    Python's Unicode `\w` class is a parameter `isWord`, so every result here
    holds for any definition of a word character. */
module Sanitize {
  import opened Seqs

  predicate NotHyphen(c: char) {
    c != '-'
  }

  /** The characters the second step keeps: `\w`, `-` and `.`. */
  predicate Allowed(isWord: char -> bool, c: char) {
    isWord(c) || c == '-' || c == '.'
  }

  /** No two adjacent hyphens. */
  predicate NoDoubleHyphen(s: string) {
    forall i :: 0 <= i < |s| - 1 ==> !(s[i] == '-' && s[i + 1] == '-')
  }

  /** Neither the first nor the last character is a hyphen. */
  predicate Trimmed(s: string) {
    |s| > 0 ==> s[0] != '-' && s[|s| - 1] != '-'
  }

  /** `Allowed` as a function value, for filtering. */
  function AllowedBy(isWord: char -> bool): char -> bool {
    c => Allowed(isWord, c)
  }

  /** The characters of an icon name that reach the file name as they are:
      allowed ones other than space and hyphen. */
  function KeptContent(isWord: char -> bool): char -> bool {
    c => c != ' ' && c != '-' && Allowed(isWord, c)
  }

  /** Every property the final file name has. */
  predicate Clean(isWord: char -> bool, s: string) {
    && (forall i :: 0 <= i < |s| ==> s[i] != ' ' && Allowed(isWord, s[i]))
    && NoDoubleHyphen(s)
    && Trimmed(s)
  }

  /** The first step: every space becomes a hyphen. */
  function ReplaceSpaces(s: string): (r: string)
    ensures |r| == |s|
    ensures ' ' !in r
    ensures forall i :: 0 <= i < |s| && s[i] != ' ' ==> r[i] == s[i]
    ensures forall i :: 0 <= i < |s| && s[i] == ' ' ==> r[i] == '-'
  {
    seq(|s|, i requires 0 <= i < |s| => if s[i] == ' ' then '-' else s[i])
  }

  /** The second step: delete every character that is not a word
      character, a hyphen or a dot. Each allowed character is kept as often
      as it occurs, in order. */
  function KeepAllowed(isWord: char -> bool, s: string): (r: string)
    ensures |r| <= |s|
    ensures forall c :: c in r <==> c in s && Allowed(isWord, c)
    ensures forall c :: multiset(r)[c] == if Allowed(isWord, c) then multiset(s)[c] else 0
  {
    FilterCounts(s, AllowedBy(isWord));
    Filter(s, AllowedBy(isWord))
  }

  /** The third step: every run of hyphens becomes one hyphen. A hyphen
      followed by another is dropped, so each run keeps its last. The text
      before the first hyphen, the non-empty pieces after it, and the first
      and last characters are all kept. */
  function CollapseHyphens(s: string): (r: string)
    ensures |r| <= |s|
    ensures NoDoubleHyphen(r)
    ensures forall c :: c in r ==> c in s
    ensures |s| > 0 ==> |r| > 0 && r[0] == s[0] && r[|r| - 1] == s[|s| - 1]
    ensures Head(r) == Head(s) && Rest(r) == Rest(s)
    decreases |s|
  {
    if |s| == 0 then []
    else if |s| >= 2 && s[0] == '-' && s[1] == '-' then
      var t := CollapseHyphens(s[1..]);
      CollapseDropsHyphen(s, t);
      t
    else
      var t := CollapseHyphens(s[1..]);
      CollapseKeepsFirst(s, t);
      [s[0]] + t
  }

  /** What `CollapseHyphens` promises about `r` as a collapse of `s`. */
  predicate CollapsedFrom(s: string, r: string) {
    && |r| <= |s|
    && NoDoubleHyphen(r)
    && (forall c :: c in r ==> c in s)
    && (|s| > 0 ==> |r| > 0 && r[0] == s[0] && r[|r| - 1] == s[|s| - 1])
    && Head(r) == Head(s) && Rest(r) == Rest(s)
  }

  /** The first of two hyphens can go. */
  lemma CollapseDropsHyphen(s: string, t: string)
    requires |s| >= 2 && s[0] == '-' && s[1] == '-'
    requires CollapsedFrom(s[1..], t)
    ensures CollapsedFrom(s, t)
  {
    assert s == ['-'] + s[1..];
    HyphenBeforeHyphen(s[1..]);
  }

  /** A character not followed by a second hyphen stays. */
  lemma CollapseKeepsFirst(s: string, t: string)
    requires |s| > 0 && !(|s| >= 2 && s[0] == '-' && s[1] == '-')
    requires CollapsedFrom(s[1..], t)
    ensures CollapsedFrom(s, [s[0]] + t)
  {
    var r := [s[0]] + t;
    assert s == [s[0]] + s[1..];
    SamePiecesAfter(s[0], s[1..], t);
    forall i | 0 <= i < |r| - 1
      ensures !(r[i] == '-' && r[i + 1] == '-')
    {
      if i > 0 {
        assert r[i] == t[i - 1] && r[i + 1] == t[i];
      }
    }
  }

  /** Hyphens removed from the front. */
  function StripLeading(s: string): (r: string)
    ensures |r| <= |s| && r == s[|s| - |r|..]
    ensures |r| > 0 ==> r[0] != '-'
    ensures forall i :: 0 <= i < |s| - |r| ==> s[i] == '-'
    decreases |s|
  {
    if |s| > 0 && s[0] == '-' then StripLeading(s[1..]) else s
  }

  /** Hyphens removed from the back. */
  function StripTrailing(s: string): (r: string)
    ensures |r| <= |s| && r == s[..|r|]
    ensures |r| > 0 ==> r[|r| - 1] != '-'
    ensures forall i :: |r| <= i < |s| ==> s[i] == '-'
    ensures |s| > 0 && s[0] != '-' ==> |r| > 0
    decreases |s|
  {
    if |s| > 0 && s[|s| - 1] == '-' then StripTrailing(s[..|s| - 1]) else s
  }

  /** The last step: hyphens removed from both ends. What remains is a
      slice of `s`, and everything cut off on either side is a hyphen. */
  function StripHyphens(s: string): (r: string)
    ensures |r| <= |s|
    ensures Trimmed(r)
    ensures exists k :: CutAt(s, r, k)
  {
    var l := StripLeading(s);
    var r := StripTrailing(l);
    var k := |s| - |l|;
    assert CutAt(s, r, k) by {
      assert r == l[..|r|];
      forall i | k + |r| <= i < |s|
        ensures s[i] == '-'
      {
        assert s[i] == l[i - k];
      }
    }
    r
  }

  /** `r` is the slice of `s` starting at `k`, and everything around it is
      a hyphen. */
  predicate CutAt(s: string, r: string, k: int) {
    0 <= k <= |s| - |r| && r == s[k..k + |r|] && EndsAreHyphens(s, k, k + |r|)
  }

  /** Everything in `s` outside `s[lo..hi]` is a hyphen. */
  predicate EndsAreHyphens(s: string, lo: int, hi: int)
    requires 0 <= lo <= hi <= |s|
  {
    && (forall i :: 0 <= i < lo ==> s[i] == '-')
    && (forall i :: hi <= i < |s| ==> s[i] == '-')
  }

  /** `sanitize_filename`: spaces to hyphens, disallowed characters
      dropped, hyphen runs collapsed, end hyphens trimmed. The result is the
      non-empty hyphen-free pieces of the name, after spaces become hyphens
      and disallowed characters go, joined with single hyphens. So "my icon" becomes
      "my-icon", and " a--b- " becomes "a-b". */
  function SanitizeFilename(isWord: char -> bool, name: string): (r: string)
    ensures |r| <= |name|
    ensures r == Join(Segments(KeepAllowed(isWord, ReplaceSpaces(name))))
  {
    var kept := KeepAllowed(isWord, ReplaceSpaces(name));
    var collapsed := CollapseHyphens(kept);
    StripIsJoin(collapsed);
    SegmentsHeadRest(collapsed);
    SegmentsHeadRest(kept);
    StripHyphens(collapsed)
  }

  /** Every file name the sanitiser produces is clean: only allowed
      characters, no space, no hyphen run, no hyphen at either end. */
  lemma SanitizeIsClean(isWord: char -> bool, name: string)
    ensures Clean(isWord, SanitizeFilename(isWord, name))
  {
    StripKeepsProperties(isWord, CollapseHyphens(KeepAllowed(isWord, ReplaceSpaces(name))));
  }

  /** Trimming hyphens from the ends keeps every property that holds of
      each character and of each adjacent pair. */
  lemma StripKeepsProperties(isWord: char -> bool, s: string)
    requires forall c :: c in s ==> c != ' ' && Allowed(isWord, c)
    requires NoDoubleHyphen(s)
    ensures Clean(isWord, StripHyphens(s))
  {
    var l := StripLeading(s);
    var r := StripTrailing(l);
    var k := |s| - |l|;
    assert forall i :: 0 <= i < |r| ==> r[i] == s[k + i] by {
      forall i | 0 <= i < |r|
        ensures r[i] == s[k + i]
      {
        assert r[i] == l[i];
      }
    }
    forall i | 0 <= i < |r|
      ensures r[i] != ' ' && Allowed(isWord, r[i])
    {
      assert s[k + i] in s;
    }
    forall i | 0 <= i < |r| - 1
      ensures !(r[i] == '-' && r[i + 1] == '-')
    {
      assert r[i + 1] == s[k + i + 1];
    }
    if |r| > 0 {
      assert r[0] == l[0];
    }
  }

  // ---------------------------------------------------------------------
  // What survives

  /** Only hyphens are ever lost by collapsing runs. */
  lemma {:induction false} CollapseKeepsNonHyphens(s: string)
    ensures Filter(CollapseHyphens(s), NotHyphen) == Filter(s, NotHyphen)
    decreases |s|
  {
    if |s| > 0 {
      CollapseKeepsNonHyphens(s[1..]);
      if !(|s| >= 2 && s[0] == '-' && s[1] == '-') {
        var c := CollapseHyphens(s[1..]);
        assert ([s[0]] + c)[1..] == c;
      }
    }
  }

  /** Only hyphens are lost by trimming the front. */
  lemma {:induction false} StripLeadingKeepsNonHyphens(s: string)
    ensures Filter(StripLeading(s), NotHyphen) == Filter(s, NotHyphen)
    decreases |s|
  {
    if |s| > 0 && s[0] == '-' {
      StripLeadingKeepsNonHyphens(s[1..]);
    }
  }

  /** Only hyphens are lost by trimming the back. */
  lemma {:induction false} StripTrailingKeepsNonHyphens(s: string)
    ensures Filter(StripTrailing(s), NotHyphen) == Filter(s, NotHyphen)
    decreases |s|
  {
    if |s| > 0 && s[|s| - 1] == '-' {
      var init := s[..|s| - 1];
      StripTrailingKeepsNonHyphens(init);
      assert s == init + [s[|s| - 1]];
      FilterConcat(init, [s[|s| - 1]], NotHyphen);
    }
  }

  /** Only hyphens are ever lost by trimming. */
  lemma StripKeepsNonHyphens(s: string)
    ensures Filter(StripHyphens(s), NotHyphen) == Filter(s, NotHyphen)
  {
    StripLeadingKeepsNonHyphens(s);
    StripTrailingKeepsNonHyphens(StripLeading(s));
  }

  /** The non-hyphen characters of the file name are exactly the allowed,
      non-space, non-hyphen characters of the icon name, in their order:
      sanitising deletes characters and rewrites hyphen runs, nothing else. */
  lemma SanitizeKeepsContent(isWord: char -> bool, name: string)
    ensures Filter(SanitizeFilename(isWord, name), NotHyphen)
         == Filter(name, KeptContent(isWord))
  {
    var replaced := ReplaceSpaces(name);
    var kept := KeepAllowed(isWord, replaced);
    var collapsed := CollapseHyphens(kept);
    StripKeepsNonHyphens(collapsed);
    CollapseKeepsNonHyphens(kept);
    FilterOfFilter(replaced, AllowedBy(isWord), NotHyphen);
    ReplaceThenFilter(isWord, name);
  }

  function Both(p: char -> bool, q: char -> bool): char -> bool {
    c => p(c) && q(c)
  }

  /** Filtering twice is filtering by the conjunction. */
  lemma {:induction false} FilterOfFilter(s: string, p: char -> bool, q: char -> bool)
    ensures Filter(Filter(s, p), q) == Filter(s, Both(p, q))
    decreases |s|
  {
    if |s| > 0 {
      FilterOfFilter(s[1..], p, q);
    }
  }

  /** After spaces become hyphens, the allowed non-hyphen characters are the
      allowed non-space, non-hyphen characters of the original. */
  lemma {:induction false} ReplaceThenFilter(isWord: char -> bool, s: string)
    ensures Filter(ReplaceSpaces(s), Both(AllowedBy(isWord), NotHyphen)) == Filter(s, KeptContent(isWord))
    decreases |s|
  {
    if |s| > 0 {
      ReplaceThenFilter(isWord, s[1..]);
      assert ReplaceSpaces(s)[1..] == ReplaceSpaces(s[1..]);
    }
  }

  // ---------------------------------------------------------------------
  // Idempotence

  lemma ReplaceSpacesNoSpaces(s: string)
    requires forall i :: 0 <= i < |s| ==> s[i] != ' '
    ensures ReplaceSpaces(s) == s
  {
  }

  lemma {:induction false} CollapseNoDouble(s: string)
    requires NoDoubleHyphen(s)
    ensures CollapseHyphens(s) == s
    decreases |s|
  {
    if |s| > 0 {
      CollapseNoDouble(s[1..]);
    }
  }

  lemma StripTrimmed(s: string)
    requires Trimmed(s)
    ensures StripHyphens(s) == s
  {
    if |s| > 0 {
      assert StripLeading(s) == s;
    }
  }

  /** A sanitised name is a fixed point: sanitising it again changes
      nothing. */
  lemma SanitizeIdempotent(isWord: char -> bool, name: string)
    ensures SanitizeFilename(isWord, SanitizeFilename(isWord, name)) == SanitizeFilename(isWord, name)
  {
    var s := SanitizeFilename(isWord, name);
    SanitizeIsClean(isWord, name);
    ReplaceSpacesNoSpaces(s);
    FilterAll(s, AllowedBy(isWord));
    CollapseNoDouble(s);
    StripTrimmed(s);
  }

  // ---------------------------------------------------------------------
  // Hyphen-separated pieces: an independent description of the file name

  /** Python's `s.split('-')`: the hyphen-free pieces between hyphens,
      empty ones included; there is always at least one. */
  function Split(s: string): (r: seq<string>)
    ensures |r| > 0
    decreases |s|
  {
    if |s| == 0 then [[]]
    else
      var t := Split(s[1..]);
      if s[0] == '-' then [[]] + t else [[s[0]] + t[0]] + t[1..]
  }

  /** Python's `'-'.join(parts)`. */
  function Join(parts: seq<string>): string
    decreases |parts|
  {
    if |parts| == 0 then []
    else if |parts| == 1 then parts[0]
    else parts[0] + "-" + Join(parts[1..])
  }

  /** The pieces that are not empty, in order. */
  function NonEmpty(ps: seq<string>): (r: seq<string>)
    ensures |r| <= |ps|
  {
    if |ps| == 0 then []
    else (if |ps[0]| > 0 then [ps[0]] else []) + NonEmpty(ps[1..])
  }

  lemma NonEmptyCons(p: string, ps: seq<string>)
    ensures NonEmpty([p] + ps) == (if |p| > 0 then [p] else []) + NonEmpty(ps)
  {
    assert ([p] + ps)[1..] == ps;
  }

  /** The text before the first hyphen. */
  function Head(s: string): string {
    Split(s)[0]
  }

  /** The non-empty pieces after the first hyphen. */
  function Rest(s: string): seq<string> {
    NonEmpty(Split(s)[1..])
  }

  /** The non-empty pieces of `s`: the words a run of hyphens separates. */
  function Segments(s: string): seq<string> {
    NonEmpty(Split(s))
  }

  lemma SplitCons(c: char, s: string)
    ensures Split([c] + s)
         == if c == '-' then [[]] + Split(s) else [[c] + Split(s)[0]] + Split(s)[1..]
  {
    assert ([c] + s)[1..] == s;
  }

  lemma JoinCons(p: string, ps: seq<string>)
    ensures Join([p] + ps) == if |ps| == 0 then p else p + "-" + Join(ps)
  {
    assert ([p] + ps)[1..] == ps;
  }

  /** After a leading hyphen the pieces are those of the remainder. */
  lemma RestOfHyphen(s: string)
    ensures Rest(['-'] + s) == Segments(s)
  {
    SplitCons('-', s);
    assert Split(['-'] + s)[1..] == Split(s);
  }

  /** Splitting and joining again gives the string back. */
  lemma {:induction false} JoinSplit(s: string)
    ensures Join(Split(s)) == s
    decreases |s|
  {
    if |s| > 0 {
      JoinSplit(s[1..]);
      JoinSplitCons(s[0], s[1..]);
      assert s == [s[0]] + s[1..];
    }
  }

  lemma JoinSplitCons(c: char, x: string)
    requires Join(Split(x)) == x
    ensures Join(Split([c] + x)) == [c] + x
  {
    var t := Split(x);
    SplitCons(c, x);
    if c == '-' {
      JoinCons([], t);
    } else {
      assert t == [t[0]] + t[1..];
      JoinCons([c] + t[0], t[1..]);
      JoinCons(t[0], t[1..]);
    }
  }

  /** A second hyphen in front changes neither the head nor the rest. */
  lemma HyphenBeforeHyphen(x: string)
    requires |x| > 0 && x[0] == '-'
    ensures Head(['-'] + x) == Head(x) && Rest(['-'] + x) == Rest(x)
  {
    SplitCons('-', x);
    SplitCons('-', x[1..]);
    assert x == ['-'] + x[1..];
    RestOfHyphen(x);
    SegmentsHeadRest(x);
  }

  /** Putting the same character in front of two strings with the same
      head and rest gives two strings with the same head and rest. */
  lemma SamePiecesAfter(c: char, x: string, y: string)
    requires Head(x) == Head(y) && Rest(x) == Rest(y)
    ensures Head([c] + x) == Head([c] + y) && Rest([c] + x) == Rest([c] + y)
  {
    SplitCons(c, x);
    SplitCons(c, y);
    if c == '-' {
      RestOfHyphen(x);
      RestOfHyphen(y);
      SegmentsHeadRest(x);
      SegmentsHeadRest(y);
    }
  }

  /** The segments are the head, when it is not empty, then the rest. */
  lemma SegmentsHeadRest(s: string)
    ensures Segments(s) == (if |Head(s)| > 0 then [Head(s)] else []) + Rest(s)
  {
    var t := Split(s);
    assert t == [t[0]] + t[1..];
    NonEmptyCons(t[0], t[1..]);
  }

  /** Every string with no doubled hyphen after its first character has
      none after dropping that character. */
  lemma NoDoubleTail(s: string)
    requires |s| > 0 && NoDoubleHyphen(s)
    ensures NoDoubleHyphen(s[1..])
  {
    var x := s[1..];
    forall i | 0 <= i < |x| - 1
      ensures !(x[i] == '-' && x[i + 1] == '-')
    {
      assert x[i] == s[i + 1] && x[i + 1] == s[i + 2];
    }
  }

  /** Trimming the back of a string with no doubled hyphen keeps the head
      and joins the non-empty pieces after it with single hyphens. */
  lemma {:induction false} StripTrailingIsJoin(s: string)
    requires NoDoubleHyphen(s)
    ensures StripTrailing(s) == Join([Head(s)] + Rest(s))
    decreases |s|
  {
    if |s| == 0 {
      assert Join([Head(s)]) == [];
    } else {
      var x := s[1..];
      assert s == [s[0]] + x;
      NoDoubleTail(s);
      StripTrailingIsJoin(x);
      if s[0] != '-' {
        TrailingJoinWord(s[0], x);
      } else if |x| == 0 {
        LoneHyphen();
      } else {
        assert x[0] != '-' by {
          assert !(s[0] == '-' && s[1] == '-');
        }
        TrailingJoinHyphen(x);
      }
    }
  }

  lemma LoneHyphen()
    ensures StripTrailing("-") == Join([Head("-")] + Rest("-"))
  {
    SplitCons('-', []);
    assert Rest("-") == [];
    assert [Head("-")] + Rest("-") == [[]];
  }

  /** The head and rest after one more character. */
  lemma PiecesOfCons(c: char, x: string)
    ensures c == '-' ==> Head([c] + x) == [] && Rest([c] + x) == Segments(x)
    ensures c != '-' ==> Head([c] + x) == [c] + Head(x) && Rest([c] + x) == Rest(x)
  {
    SplitCons(c, x);
    if c == '-' {
      RestOfHyphen(x);
    }
  }

  lemma HeadNonEmpty(x: string)
    requires |x| > 0 && x[0] != '-'
    ensures |Head(x)| > 0
  {
    PiecesOfCons(x[0], x[1..]);
    assert x == [x[0]] + x[1..];
  }

  lemma JoinAfterEmpty(ps: seq<string>)
    requires |ps| > 0
    ensures Join([[]] + ps) == ['-'] + Join(ps)
  {
    JoinCons([], ps);
  }

  lemma JoinPrepend(c: char, h: string, ps: seq<string>)
    ensures Join([[c] + h] + ps) == [c] + Join([h] + ps)
  {
    JoinCons([c] + h, ps);
    JoinCons(h, ps);
  }

  lemma TrailingJoinWord(c: char, x: string)
    requires c != '-'
    requires StripTrailing(x) == Join([Head(x)] + Rest(x))
    ensures StripTrailing([c] + x) == Join([Head([c] + x)] + Rest([c] + x))
  {
    TrailingCons(c, x);
    PiecesOfCons(c, x);
    JoinPrepend(c, Head(x), Rest(x));
  }

  lemma TrailingJoinHyphen(x: string)
    requires |x| > 0 && x[0] != '-'
    requires StripTrailing(x) == Join([Head(x)] + Rest(x))
    ensures StripTrailing(['-'] + x) == Join([Head(['-'] + x)] + Rest(['-'] + x))
  {
    TrailingCons('-', x);
    PiecesOfCons('-', x);
    HeadNonEmpty(x);
    SegmentsHeadRest(x);
    JoinAfterEmpty([Head(x)] + Rest(x));
  }

  /** Removing the back hyphens after one more character: the character
      stays unless it is a hyphen and nothing else is left. */
  lemma {:induction false} TrailingCons(c: char, x: string)
    ensures StripTrailing([c] + x)
         == if c != '-' || StripTrailing(x) != [] then [c] + StripTrailing(x) else []
    decreases |x|
  {
    if |x| > 0 && x[|x| - 1] == '-' {
      var init := x[..|x| - 1];
      assert ([c] + x)[..|x|] == [c] + init;
      TrailingCons(c, init);
    } else if |x| == 0 {
      assert [c] + x == [c];
    }
  }

  /** Trimming both ends of a string with no doubled hyphen joins its
      non-empty pieces with single hyphens. */
  lemma StripIsJoin(s: string)
    requires NoDoubleHyphen(s)
    ensures StripHyphens(s) == Join(Segments(s))
  {
    if |s| > 0 && s[0] == '-' {
      var x := s[1..];
      NoDoubleTail(s);
      if |x| > 0 {
        assert x[0] != '-' by {
          assert !(s[0] == '-' && s[1] == '-');
        }
      }
      StripTrailingIsJoin(x);
      StripAfterHyphen(x);
      assert s == ['-'] + x;
    } else {
      StripTrailingIsJoin(s);
      StripWord(s);
    }
  }

  lemma StripWord(s: string)
    requires |s| == 0 || s[0] != '-'
    requires StripTrailing(s) == Join([Head(s)] + Rest(s))
    ensures StripHyphens(s) == Join(Segments(s))
  {
    assert StripLeading(s) == s;
    SegmentsHeadRest(s);
    if |s| > 0 {
      HeadNonEmpty(s);
    } else {
      assert Rest(s) == [];
    }
  }

  lemma StripAfterHyphen(x: string)
    requires |x| == 0 || x[0] != '-'
    requires StripTrailing(x) == Join([Head(x)] + Rest(x))
    ensures StripHyphens(['-'] + x) == Join(Segments(['-'] + x))
  {
    StripWord(x);
    StripPastHyphen(x);
    SegmentsPastHyphen(x);
  }

  lemma StripPastHyphen(x: string)
    ensures StripHyphens(['-'] + x) == StripHyphens(x)
  {
    assert (['-'] + x)[1..] == x;
    assert StripLeading(['-'] + x) == StripLeading(x);
  }

  /** A hyphen in front adds no segment. */
  lemma SegmentsPastHyphen(x: string)
    ensures Segments(['-'] + x) == Segments(x)
  {
    PiecesOfCons('-', x);
    SegmentsHeadRest(['-'] + x);
  }

  /** A string without hyphens is a single piece. */
  lemma {:induction false} SplitWord(w: string)
    requires '-' !in w
    ensures Split(w) == [w]
    decreases |w|
  {
    if |w| > 0 {
      SplitWord(w[1..]);
      SplitCons(w[0], w[1..]);
      assert w == [w[0]] + w[1..];
    }
  }

  /** A hyphen-free word followed by a hyphen is the first piece. */
  lemma {:induction false} SplitWordThen(w: string, x: string)
    requires '-' !in w
    ensures Split(w + ['-'] + x) == [w] + Split(x)
    decreases |w|
  {
    if |w| == 0 {
      SplitCons('-', x);
      assert w + ['-'] + x == ['-'] + x;
    } else {
      var y := w[1..] + ['-'] + x;
      SplitWordThen(w[1..], x);
      SplitCons(w[0], y);
      assert w + ['-'] + x == [w[0]] + y;
      assert [w[0]] + w[1..] == w;
      assert Split(y)[0] == w[1..] && Split(y)[1..] == Split(x);
    }
  }

  /** The icon name "my icon" gets the file name "my-icon". */
  lemma SanitizeMyIcon(isWord: char -> bool)
    requires forall c :: c in "myicon" ==> isWord(c)
    ensures SanitizeFilename(isWord, "my icon") == "my-icon"
  {
    SpaceToHyphen();
    KeepMyIcon(isWord);
    SegmentsMyIcon();
  }

  lemma SpaceToHyphen()
    ensures ReplaceSpaces("my icon") == "my-icon"
  {
  }

  lemma KeepMyIcon(isWord: char -> bool)
    requires forall c :: c in "myicon" ==> isWord(c)
    ensures KeepAllowed(isWord, "my-icon") == "my-icon"
  {
    forall c | c in "my-icon"
      ensures Allowed(isWord, c)
    {
      assert c == '-' || c in "myicon";
    }
    FilterAll("my-icon", AllowedBy(isWord));
  }

  lemma SegmentsMyIcon()
    ensures Join(Segments("my-icon")) == "my-icon"
  {
    SplitWord("icon");
    SplitWordThen("my", "icon");
    assert "my-icon" == "my" + ['-'] + "icon";
    assert Segments("my-icon") == ["my", "icon"];
  }
}
