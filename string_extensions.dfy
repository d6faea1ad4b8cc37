/**
 * `StringExtensions` of the serializer: splitting a PascalCase member name
 * into words at its capitals and turning it into the snake_case ("Ruby case")
 * name the REST API uses on the wire.
 *
 * The word functions are written over a set of cut positions, so that what
 * they say about words holds for any choice of cuts; `CutSet` is the choice
 * the splitter makes.
 */
module StringExtensions {
  import opened Chars

  // ---------------------------------------------------------------------
  // Where a new word starts
  // ---------------------------------------------------------------------

  /**
   * The splitter's `previousChar` when it looks at position `i`: it starts as
   * `char.MinValue` and is only updated at the end of each step, so at `i == 1`
   * it is still `MinValue` and the first character is never consulted.
   */
  function PreviousChar(s: string, i: nat): char
    requires 1 <= i <= |s|
  {
    if i == 1 then MinValue else s[i - 1]
  }

  /** Position `i` starts a new word: never the first character, upper case, not after white space. */
  predicate IsCut(s: string, i: nat) {
    1 <= i < |s| && IsUpper(s[i]) && !IsWhiteSpace(PreviousChar(s, i))
  }

  /** The set of cut positions of `s`. */
  function CutSet(s: string): set<nat> {
    set i: nat | i < |s| && IsCut(s, i)
  }

  /** The positions at or after `i` (and before `|s|`) that are in `cuts`, in increasing order. */
  function CutsFrom(s: string, cuts: set<nat>, i: nat): seq<nat>
    requires i <= |s| + 1
    decreases |s| + 1 - i
  {
    if i >= |s| then []
    else if i in cuts then [i] + CutsFrom(s, cuts, i + 1)
    else CutsFrom(s, cuts, i + 1)
  }

  /** All cut positions of `s`, in increasing order. */
  function Cuts(s: string): seq<nat> {
    CutsFrom(s, CutSet(s), 1)
  }

  /** Where the words begin and end: the start, every cut position, and the end. */
  function Boundaries(s: string): seq<nat> {
    [0] + Cuts(s) + [|s|]
  }

  // ---------------------------------------------------------------------
  // The words, as a specification
  // ---------------------------------------------------------------------

  /**
   * The words still to be produced when the current word began at `start`
   * and the scan is at `i`: a cut at `i` closes `s[start..i]`, the end of
   * the input closes `s[start..]`.
   */
  function SplitFrom(s: string, cuts: set<nat>, start: nat, i: nat): (words: seq<string>)
    requires start < i <= |s| + 1
    ensures |words| >= 1
    decreases |s| + 1 - i
  {
    if i >= |s| then [s[start..]]
    else if i in cuts then [s[start..i]] + SplitFrom(s, cuts, i, i + 1)
    else SplitFrom(s, cuts, start, i + 1)
  }

  /** The words `SplitUpperCase` yields for `s`; for the empty string the scan never starts and the one word is empty. */
  function Words(s: string): seq<string> {
    SplitFrom(s, CutSet(s), 0, 1)
  }

  /** The words glued back together with nothing between them. */
  function Concat(words: seq<string>): string {
    if words == [] then [] else words[0] + Concat(words[1..])
  }

  /** `string.Join(sep, words)`. */
  function Join(sep: string, words: seq<string>): string {
    if words == [] then []
    else if |words| == 1 then words[0]
    else words[0] + sep + Join(sep, words[1..])
  }

  /** `s` from position `i` on, with a `_` put in front of every position in `cuts`. */
  function UnderscoredFrom(s: string, cuts: set<nat>, i: nat): string
    requires i <= |s|
    decreases |s| - i
  {
    if i == |s| then []
    else if i in cuts then ['_', s[i]] + UnderscoredFrom(s, cuts, i + 1)
    else [s[i]] + UnderscoredFrom(s, cuts, i + 1)
  }

  /** `s` with a `_` put in front of every cut position. */
  function Underscored(s: string): string {
    UnderscoredFrom(s, CutSet(s), 0)
  }

  // ---------------------------------------------------------------------
  // The operations
  // ---------------------------------------------------------------------

  /**
   * `SplitUpperCase`: scans from the second character, closing the current
   * word at every cut, and finally yields the word in progress. The yielded
   * words are collected into a sequence.
   */
  method SplitUpperCase(source: string) returns (words: seq<string>)
    ensures words == Words(source)
    ensures Concat(words) == source
    ensures |words| == 1 + |Cuts(source)|
  {
    var wordStartIndex := 0;
    var previousChar := MinValue;
    words := [];
    ghost var cuts := CutSet(source);
    var i := 1;
    while i < |source|
      invariant 1 <= i <= |source| + 1
      invariant wordStartIndex < i && wordStartIndex <= |source|
      invariant i <= |source| ==> previousChar == PreviousChar(source, i)
      invariant words + SplitFrom(source, cuts, wordStartIndex, i) == Words(source)
    {
      if IsUpper(source[i]) && !IsWhiteSpace(previousChar) {
        assert i in cuts;
        assert SplitFrom(source, cuts, wordStartIndex, i) == [source[wordStartIndex..i]] + SplitFrom(source, cuts, i, i + 1);
        words := words + [source[wordStartIndex..i]];
        wordStartIndex := i;
      } else {
        assert i !in cuts;
        assert SplitFrom(source, cuts, wordStartIndex, i) == SplitFrom(source, cuts, wordStartIndex, i + 1);
      }
      previousChar := source[i];
      i := i + 1;
    }
    assert SplitFrom(source, cuts, wordStartIndex, i) == [source[wordStartIndex..]];
    words := words + [source[wordStartIndex..]];
    WordsCoverSource(source);
    WordCount(source);
  }

  /** `ToRubyCase`: the words joined with `_`, then lower-cased. */
  function ToRubyCase(propertyName: string): (rubyName: string)
    ensures rubyName == ToLowerInvariant(Underscored(propertyName))
    ensures NoUpper(rubyName)
    ensures |rubyName| == |propertyName| + |Words(propertyName)| - 1
  {
    JoinedWordsAreUnderscored(propertyName);
    UnderscoredLength(propertyName);
    WordCount(propertyName);
    ToLowerInvariant(Join("_", Words(propertyName)))
  }

  // ---------------------------------------------------------------------
  // Cut positions
  // ---------------------------------------------------------------------

  lemma {:induction false} CutsFromExact(s: string, cuts: set<nat>, i: nat)
    requires i <= |s| + 1
    ensures forall p :: p in CutsFrom(s, cuts, i) <==> i <= p < |s| && p in cuts
    ensures forall a, b :: 0 <= a < b < |CutsFrom(s, cuts, i)| ==> CutsFrom(s, cuts, i)[a] < CutsFrom(s, cuts, i)[b]
    decreases |s| + 1 - i
  {
    if i < |s| {
      CutsFromExact(s, cuts, i + 1);
      if i in cuts {
        var c, rest := CutsFrom(s, cuts, i), CutsFrom(s, cuts, i + 1);
        assert c == [i] + rest;
        forall a, b | 0 <= a < b < |c|
          ensures c[a] < c[b]
        {
          if a > 0 {
            assert c[a] == rest[a - 1];
          } else {
            assert rest[b - 1] in rest;
          }
        }
      }
    }
  }

  /** The cut positions of `s` are exactly the positions `IsCut` names, in strictly increasing order. */
  lemma CutsExact(s: string)
    ensures forall p :: p in Cuts(s) <==> IsCut(s, p)
    ensures forall a, b :: 0 <= a < b < |Cuts(s)| ==> Cuts(s)[a] < Cuts(s)[b]
  {
    CutsFromExact(s, CutSet(s), 1);
  }

  /**
   * The first character is never consulted: position 1 is a cut exactly when
   * it is upper case, whatever `s[0]` is; from position 2 on, the character
   * before must not be white space.
   */
  lemma FirstCutIgnoresFirstChar(s: string, i: nat)
    requires 1 <= i < |s|
    ensures i == 1 ==> (IsCut(s, i) <==> IsUpper(s[1]))
    ensures i >= 2 ==> (IsCut(s, i) <==> IsUpper(s[i]) && !IsWhiteSpace(s[i - 1]))
  {
  }

  // ---------------------------------------------------------------------
  // What the words are
  // ---------------------------------------------------------------------

  /** Word `k` is the slice of `s` from `bounds[k]` to `bounds[k + 1]`. */
  predicate SliceAt(s: string, words: seq<string>, bounds: seq<nat>, k: nat)
    requires k < |words| && |words| == |bounds| - 1
  {
    bounds[k] <= bounds[k + 1] <= |s| && words[k] == s[bounds[k]..bounds[k + 1]]
  }

  /** `words` are the slices of `s` between consecutive entries of `bounds`. */
  predicate SlicedAt(s: string, words: seq<string>, bounds: seq<nat>) {
    |words| == |bounds| - 1 &&
    forall k: nat :: k < |words| ==> SliceAt(s, words, bounds, k)
  }

  /** Putting one more slice in front, from `start` to the first bound, keeps the slicing. */
  lemma SlicedAtCons(s: string, start: nat, words: seq<string>, bounds: seq<nat>)
    requires SlicedAt(s, words, bounds) && |bounds| > 0 && start <= bounds[0] <= |s|
    ensures SlicedAt(s, [s[start..bounds[0]]] + words, [start] + bounds)
  {
    var w: seq<string>, b: seq<nat> := [s[start..bounds[0]]] + words, [start] + bounds;
    assert |w| == |b| - 1;
    forall k: nat | k < |w|
      ensures SliceAt(s, w, b, k)
    {
      if k == 0 {
        assert w[0] == s[start..bounds[0]] && b[0] == start && b[1] == bounds[0];
      } else {
        assert SliceAt(s, words, bounds, k - 1);
        assert w[k] == words[k - 1] && b[k] == bounds[k - 1] && b[k + 1] == bounds[k];
      }
    }
  }

  lemma {:induction false} SplitFromSlices(s: string, cuts: set<nat>, start: nat, i: nat)
    requires start < i <= |s| + 1
    ensures SlicedAt(s, SplitFrom(s, cuts, start, i), [start] + CutsFrom(s, cuts, i) + [|s|])
    decreases |s| + 1 - i
  {
    if i < |s| {
      if i in cuts {
        var rest, b := SplitFrom(s, cuts, i, i + 1), [i] + CutsFrom(s, cuts, i + 1) + [|s|];
        SplitFromSlices(s, cuts, i, i + 1);
        SlicedAtCons(s, start, rest, b);
        assert [start] + CutsFrom(s, cuts, i) + [|s|] == [start] + b;
      } else {
        SplitFromSlices(s, cuts, start, i + 1);
      }
    }
  }

  /**
   * Each word is the slice of `s` between two consecutive boundaries: word 0
   * runs from the start to the first cut, word `k` from cut `k` to the next
   * cut or to the end.
   */
  lemma WordsAreSlices(s: string)
    ensures SlicedAt(s, Words(s), Boundaries(s))
  {
    SplitFromSlices(s, CutSet(s), 0, 1);
  }

  lemma {:induction false} SplitFromCovers(s: string, cuts: set<nat>, start: nat, i: nat)
    requires start < i <= |s| + 1
    ensures Concat(SplitFrom(s, cuts, start, i)) == s[start..]
    decreases |s| + 1 - i
  {
    if i >= |s| {
      assert Concat([s[start..]]) == s[start..] + Concat([]);
    } else if i in cuts {
      var rest := SplitFrom(s, cuts, i, i + 1);
      SplitFromCovers(s, cuts, i, i + 1);
      assert ([s[start..i]] + rest)[1..] == rest;
      assert s[start..i] + s[i..] == s[start..];
    } else {
      SplitFromCovers(s, cuts, start, i + 1);
    }
  }

  /** The words cover the input exactly: glued together they give `s` back, also for the empty string. */
  lemma WordsCoverSource(s: string)
    ensures Concat(Words(s)) == s
  {
    SplitFromCovers(s, CutSet(s), 0, 1);
  }

  lemma {:induction false} SplitFromCount(s: string, cuts: set<nat>, start: nat, i: nat)
    requires start < i <= |s| + 1
    ensures |SplitFrom(s, cuts, start, i)| == 1 + |CutsFrom(s, cuts, i)|
    decreases |s| + 1 - i
  {
    if i < |s| {
      if i in cuts {
        SplitFromCount(s, cuts, i, i + 1);
      } else {
        SplitFromCount(s, cuts, start, i + 1);
      }
    }
  }

  /** There is one word more than there are cut positions; the empty string gives one (empty) word. */
  lemma WordCount(s: string)
    ensures |Words(s)| == 1 + |Cuts(s)|
  {
    SplitFromCount(s, CutSet(s), 0, 1);
  }

  lemma {:induction false} SplitFromShape(s: string, cuts: set<nat>, start: nat, i: nat)
    requires start < i <= |s| + 1
    requires forall p :: p in cuts && p < |s| ==> IsUpper(s[p])
    ensures start < |s| ==> SplitFrom(s, cuts, start, i)[0] != [] && SplitFrom(s, cuts, start, i)[0][0] == s[start]
    ensures forall k :: 1 <= k < |SplitFrom(s, cuts, start, i)| ==>
      SplitFrom(s, cuts, start, i)[k] != [] && IsUpper(SplitFrom(s, cuts, start, i)[k][0])
    decreases |s| + 1 - i
  {
    if i < |s| {
      if i in cuts {
        var rest := SplitFrom(s, cuts, i, i + 1);
        SplitFromShape(s, cuts, i, i + 1);
        assert SplitFrom(s, cuts, start, i) == [s[start..i]] + rest;
      } else {
        SplitFromShape(s, cuts, start, i + 1);
      }
    }
  }

  /**
   * Shape of the words: the first word is non-empty when `s` is, and every
   * later word is non-empty and begins with an upper-case character.
   */
  lemma WordShape(s: string)
    ensures s != [] ==> Words(s)[0] != []
    ensures forall k :: 1 <= k < |Words(s)| ==> Words(s)[k] != [] && IsUpper(Words(s)[k][0])
  {
    SplitFromShape(s, CutSet(s), 0, 1);
  }

  // ---------------------------------------------------------------------
  // What the Ruby-case name is
  // ---------------------------------------------------------------------

  lemma JoinCons(sep: string, first: string, rest: seq<string>)
    requires |rest| >= 1
    ensures Join(sep, [first] + rest) == first + sep + Join(sep, rest)
  {
    assert ([first] + rest)[1..] == rest;
  }

  lemma {:induction false} JoinSplitFrom(s: string, cuts: set<nat>, start: nat, i: nat)
    requires start < i <= |s|
    ensures Join("_", SplitFrom(s, cuts, start, i)) == s[start..i] + UnderscoredFrom(s, cuts, i)
    decreases |s| - i
  {
    if i < |s| {
      if i in cuts {
        var rest, tail := SplitFrom(s, cuts, i, i + 1), UnderscoredFrom(s, cuts, i + 1);
        JoinSplitFrom(s, cuts, i, i + 1);
        JoinCons("_", s[start..i], rest);
        assert s[i..i + 1] == [s[i]];
        assert s[start..i] + "_" + ([s[i]] + tail) == s[start..i] + (['_', s[i]] + tail);
      } else {
        JoinSplitFrom(s, cuts, start, i + 1);
        assert s[start..i + 1] == s[start..i] + [s[i]];
      }
    }
  }

  /** Joining the words with `_` is the same as putting `_` in front of every cut position. */
  lemma JoinedWordsAreUnderscored(s: string)
    ensures Join("_", Words(s)) == Underscored(s)
  {
    if |s| > 0 {
      var cuts := CutSet(s);
      JoinSplitFrom(s, cuts, 0, 1);
      assert 0 !in cuts;
      assert UnderscoredFrom(s, cuts, 0) == [s[0]] + UnderscoredFrom(s, cuts, 1);
      assert s[0..1] == [s[0]];
    }
  }

  lemma {:induction false} UnderscoredFromLength(s: string, cuts: set<nat>, i: nat)
    requires i <= |s|
    ensures |UnderscoredFrom(s, cuts, i)| == |s| - i + |CutsFrom(s, cuts, i)|
    decreases |s| - i
  {
    if i < |s| {
      UnderscoredFromLength(s, cuts, i + 1);
    }
  }

  /** The underscored name is one character longer than `s` per cut position. */
  lemma UnderscoredLength(s: string)
    ensures |Underscored(s)| == |s| + |Cuts(s)|
  {
    var cuts := CutSet(s);
    UnderscoredFromLength(s, cuts, 0);
    if |s| > 0 {
      assert 0 !in cuts;
      assert CutsFrom(s, cuts, 0) == CutsFrom(s, cuts, 1);
    }
  }

  // ---------------------------------------------------------------------
  // Worked examples
  // ---------------------------------------------------------------------

  /** A leading space does not stop a cut at position 1, but a space at position 1 stops one at 2. */
  lemma WhiteSpaceExamples()
    ensures Words(" B") == [" ", "B"]
    ensures Words("  B") == ["  B"]
    ensures Words("") == [""]
  {
    var s := " B";
    assert 1 in CutSet(s);
    assert s[0..1] == " ";
    assert SplitFrom(s, CutSet(s), 1, 2) == [s[1..]] == ["B"];
    assert SplitFrom(s, CutSet(s), 0, 1) == [s[0..1]] + SplitFrom(s, CutSet(s), 1, 2) == [" ", "B"];
    var t := "  B";
    assert 1 !in CutSet(t) && 2 !in CutSet(t);
    assert SplitFrom(t, CutSet(t), 0, 1) == SplitFrom(t, CutSet(t), 0, 2) == SplitFrom(t, CutSet(t), 0, 3);
  }

  /** Member names of the API models and their wire names; the splitter is not acronym-aware. */
  lemma RubyCaseExamples()
    ensures ToRubyCase("Id") == "id"
    ensures ToRubyCase("LastReadAt") == "last_read_at"
    ensures ToRubyCase("PerPage") == "per_page"
    ensures ToRubyCase("HTMLUrl") == "h_t_m_l_url"
    ensures ToRubyCase("") == ""
  {
    RubyCaseId();
    RubyCaseLastReadAt();
    RubyCasePerPage();
    RubyCaseHTMLUrl();
  }

  lemma RubyCaseId()
    ensures ToRubyCase("Id") == "id"
  {
    UnderscoredId();
    assert ToLowerInvariant("Id") == "id";
  }

  lemma UnderscoredId()
    ensures Underscored("Id") == "Id"
  {
    assert CutSet("Id") == {};
  }

  lemma RubyCaseLastReadAt()
    ensures ToRubyCase("LastReadAt") == "last_read_at"
  {
    UnderscoredLastReadAt();
    assert ToLowerInvariant("Last_Read_At") == "last_read_at";
  }

  lemma UnderscoredLastReadAt()
    ensures Underscored("LastReadAt") == "Last_Read_At"
  {
    assert CutSet("LastReadAt") == {4, 8};
  }

  lemma RubyCasePerPage()
    ensures ToRubyCase("PerPage") == "per_page"
  {
    UnderscoredPerPage();
    assert ToLowerInvariant("Per_Page") == "per_page";
  }

  lemma UnderscoredPerPage()
    ensures Underscored("PerPage") == "Per_Page"
  {
    assert CutSet("PerPage") == {3};
  }

  lemma RubyCaseHTMLUrl()
    ensures ToRubyCase("HTMLUrl") == "h_t_m_l_url"
  {
    UnderscoredHTMLUrl();
    assert ToLowerInvariant("H_T_M_L_Url") == "h_t_m_l_url";
  }

  lemma UnderscoredHTMLUrl()
    ensures Underscored("HTMLUrl") == "H_T_M_L_Url"
  {
    assert CutSet("HTMLUrl") == {1, 2, 3, 4};
  }
}
