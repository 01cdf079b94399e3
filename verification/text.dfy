/**
 Character classes and the trimming operation of Python's `str.strip`.
 `str.strip()` with no argument and the `\s` class of a `str` regular
 expression both accept exactly the characters of `Whitespace`.
 */
module Text {

  /** The characters for which Python's `str.isspace()` holds. */
  const Whitespace: set<char> := {
    '\t', '\n', '\U{0B}', '\U{0C}', '\r',
    '\U{1C}', '\U{1D}', '\U{1E}', '\U{1F}', ' ',
    '\U{85}', '\U{A0}', '\U{1680}',
    '\U{2000}', '\U{2001}', '\U{2002}', '\U{2003}', '\U{2004}', '\U{2005}',
    '\U{2006}', '\U{2007}', '\U{2008}', '\U{2009}', '\U{200A}',
    '\U{2028}', '\U{2029}', '\U{202F}', '\U{205F}', '\U{3000}'
  }

  /** The first index at or after `i` whose character is not in `d`, or `|s|`
      when there is none. */
  function SkipForward(s: seq<char>, i: nat, d: set<char>): (k: nat)
    requires i <= |s|
    ensures i <= k <= |s|
    ensures forall m | i <= m < k :: s[m] in d
    ensures k < |s| ==> s[k] !in d
    decreases |s| - i
  {
    if i == |s| || s[i] !in d then i else SkipForward(s, i + 1, d)
  }

  /** A run of `d`-characters from `i` stopped by a non-`d` character (or by
      the end of `s`) at `k` is what `SkipForward` finds. */
  lemma SkipForwardUnique(s: seq<char>, i: nat, d: set<char>, k: nat)
    requires i <= k <= |s|
    requires forall m | i <= m < k :: s[m] in d
    requires k < |s| ==> s[k] !in d
    ensures SkipForward(s, i, d) == k
  {
  }

  /** The least index `k <= j` such that `s[k..j]` is made only of characters
      of `d`. */
  function SkipBackward(s: seq<char>, j: nat, d: set<char>): (k: nat)
    requires j <= |s|
    ensures k <= j
    ensures forall m | k <= m < j :: s[m] in d
    ensures 0 < k ==> s[k - 1] !in d
  {
    if j == 0 || s[j - 1] !in d then j else SkipBackward(s, j - 1, d)
  }

  /** `r` sits at offset `i` of `s`, and everything of `s` around it is in `d`. */
  predicate TrimmedAt(s: seq<char>, r: seq<char>, d: set<char>, i: nat) {
    && i + |r| <= |s|
    && r == s[i..i + |r|]
    && (forall m | 0 <= m < i :: s[m] in d)
    && (forall m | i + |r| <= m < |s| :: s[m] in d)
  }

  /** `r` is what remains of `s` once some prefix and some suffix made only of
      `d`-characters have been cut off. */
  ghost predicate TrimmedBy(s: seq<char>, r: seq<char>, d: set<char>) {
    exists i: nat :: TrimmedAt(s, r, d, i)
  }

  /** Neither end of `r` is a `d`-character. */
  predicate Bare(r: seq<char>, d: set<char>) {
    r == [] || (r[0] !in d && r[|r| - 1] !in d)
  }

  /** Python's `s.strip(chars)` for the character set `d`: both ends are
      cut back to the first character outside `d`. */
  function Strip(s: seq<char>, d: set<char>): (r: seq<char>)
    ensures TrimmedBy(s, r, d)
    ensures Bare(r, d)
  {
    var i := SkipForward(s, 0, d);
    if i == |s| then
      assert TrimmedAt(s, [], d, 0);
      []
    else
      var j := SkipBackward(s, |s|, d);
      var r := s[i..j];
      assert TrimmedAt(s, r, d, i);
      r
  }

  /** `Strip` is the only result of its kind: any trimming of `s` by `d` that
      leaves no `d`-character at either end is `Strip(s, d)`. */
  lemma StripUnique(s: seq<char>, d: set<char>, r: seq<char>)
    requires TrimmedBy(s, r, d) && Bare(r, d)
    ensures r == Strip(s, d)
  {
    var i: nat :| TrimmedAt(s, r, d, i);
    var f := SkipForward(s, 0, d);
    if r != [] {
      assert s[i] == r[0];
      assert f == i;
      assert s[i + |r| - 1] == r[|r| - 1];
      assert SkipBackward(s, |s|, d) == i + |r|;
    }
  }
}
