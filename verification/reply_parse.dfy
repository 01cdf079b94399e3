/**
 The reply-cleaning and splitting pipeline of the emoji handler: the model's
 reply is trimmed of whitespace, then of colons, then split with the
 regular expression `:\s*:*` (one colon, any whitespace, any further colons).
 */
module ReplyParse {
  import opened Text

  /** The reply after `reply.strip().strip(":")`: no colon at either end, and
      only whitespace and colons were cut away. */
  function Clean(reply: string): (r: string)
    ensures Bare(r, {':'})
    ensures TrimmedBy(reply, r, Whitespace + {':'})
  {
    var w := Strip(reply, Whitespace);
    var r := Strip(w, {':'});
    TrimTwice(reply, w, r, Whitespace, {':'});
    r
  }

  /** `Clean` is the only result of its kind: whatever a whitespace trim
      followed by a colon trim can leave, with nothing left to trim at either
      stage, is `Clean(reply)`. */
  lemma CleanUnique(reply: string, w: string, r: string)
    requires TrimmedBy(reply, w, Whitespace) && Bare(w, Whitespace)
    requires TrimmedBy(w, r, {':'}) && Bare(r, {':'})
    ensures Clean(reply) == r
  {
    StripUnique(reply, Whitespace, w);
    StripUnique(w, {':'}, r);
  }

  /** Trimming by `d` and then by `e` trims, overall, characters of `d + e`. */
  lemma TrimTwice(s: string, w: string, r: string, d: set<char>, e: set<char>)
    requires TrimmedBy(s, w, d) && TrimmedBy(w, r, e)
    ensures TrimmedBy(s, r, d + e)
  {
    var i: nat :| TrimmedAt(s, w, d, i);
    var j: nat :| TrimmedAt(w, r, e, j);
    forall m | i <= m < i + |w| ensures s[m] == w[m - i] {
      assert w[m - i] == s[i..i + |w|][m - i];
    }
    assert TrimmedAt(s, r, d + e, i + j);
  }

  /** One match of `:\s*:*`: a colon, then whitespace, then colons. */
  ghost predicate IsSeparator(q: string) {
    |q| >= 1 && q[0] == ':' && exists w: nat :: SeparatorShape(q, w)
  }

  /** `q[1..w]` is whitespace and `q[w..]` is colons. */
  predicate SeparatorShape(q: string, w: nat) {
    && 1 <= w <= |q|
    && (forall m | 1 <= m < w :: q[m] in Whitespace)
    && (forall m | w <= m < |q| :: q[m] == ':')
  }

  /** The separator has no trailing colons, so its `\s*` part ended it. */
  predicate EndsInWhitespacePart(q: string) {
    |q| <= 1 || q[|q| - 1] != ':'
  }

  /** The index of the first colon at or after `i`, or `|s|` if there is none. */
  function NextColon(s: string, i: nat): (k: nat)
    requires i <= |s|
    ensures i <= k <= |s|
    ensures forall m | i <= m < k :: s[m] != ':'
    ensures k < |s| ==> s[k] == ':'
    decreases |s| - i
  {
    if i == |s| || s[i] == ':' then i else NextColon(s, i + 1)
  }

  /** Where the greedy match of `:\s*:*` that starts at the colon `s[i]` ends:
      the match is a separator that the next character cannot extend. */
  function SeparatorEnd(s: string, i: nat): (k: nat)
    requires i < |s| && s[i] == ':'
    ensures i < k <= |s|
    ensures IsSeparator(s[i..k])
    ensures k < |s| ==> s[k] != ':'
    ensures k < |s| && EndsInWhitespacePart(s[i..k]) ==> s[k] !in Whitespace
  {
    var j := SkipForward(s, i + 1, Whitespace);
    var k := SkipForward(s, j, {':'});
    assert ':' !in Whitespace;
    assert SeparatorShape(s[i..k], j - i);
    k
  }

  /** The names of `re.split` together with the separator texts between them. */
  datatype Pieces = Pieces(names: seq<string>, seps: seq<string>)

  /** `names[0] + seps[0] + names[1] + ... + names[|seps|]`. */
  function Interleave(names: seq<string>, seps: seq<string>): (r: string)
    requires |names| == |seps| + 1
  {
    if seps == [] then names[0]
    else names[0] + seps[0] + Interleave(names[1..], seps[1..])
  }

  /**
   What `re.split(r':\s*:*', s)` promises, stated without the scan: the
   names and separators put back together are `s`; no name holds a colon;
   every separator is a match of the pattern; and every match is as long as
   the greedy pattern makes it, so a name between two separators is never
   empty and a separator without trailing colons is never followed by
   whitespace.
   */
  ghost predicate IsRegexSplit(s: string, t: Pieces) {
    && |t.names| == |t.seps| + 1
    && Interleave(t.names, t.seps) == s
    && (forall k | 0 <= k < |t.names| :: ':' !in t.names[k])
    && (forall k | 0 <= k < |t.seps| :: IsSeparator(t.seps[k]))
    && (forall k | 1 <= k < |t.seps| :: t.names[k] != [])
    && (forall k | 0 <= k < |t.seps| ::
          EndsInWhitespacePart(t.seps[k]) && t.names[k + 1] != [] ==> t.names[k + 1][0] !in Whitespace)
  }

  /** The left-to-right scan of `re.split` over `s[start..]`: the name runs
      to the next colon, the separator there is consumed greedily, and the
      scan continues after it. */
  function ScanFrom(s: string, start: nat): (t: Pieces)
    requires start <= |s|
    ensures |t.names| == |t.seps| + 1
    decreases |s| - start
  {
    var i := NextColon(s, start);
    if i == |s| then
      Pieces([s[start..]], [])
    else
      var k := SeparatorEnd(s, i);
      var rest := ScanFrom(s, k);
      Pieces([s[start..i]] + rest.names, [s[i..k]] + rest.seps)
  }

  /** The names of `re.split(r':\s*:*', s)` with the separators it matched. */
  function Tokenize(s: string): (t: Pieces)
    ensures |t.names| == |t.seps| + 1
  {
    ScanFrom(s, 0)
  }

  /** The names `re.split(r':\s*:*', s)` returns. */
  function Split(s: string): (names: seq<string>)
  {
    Tokenize(s).names
  }

  /** The emoji names the handler tries: the cleaned reply, split. Python's
      `re.split` never returns an empty list, and no name holds a colon. */
  function ParseReply(reply: string): (names: seq<string>)
    ensures |names| >= 1
    ensures forall k | 0 <= k < |names| :: ':' !in names[k]
  {
    SplitShape(Clean(reply));
    Split(Clean(reply))
  }

  /** The split has one name more than it has separator matches, no name
      holds a colon, and a text without colons is its own single name. */
  lemma SplitShape(s: string)
    ensures |Split(s)| == |Tokenize(s).seps| + 1
    ensures forall k | 0 <= k < |Split(s)| :: ':' !in Split(s)[k]
    ensures ':' !in s ==> Split(s) == [s]
  {
    TokenizeSound(s);
    if ':' !in s {
      assert NextColon(s, 0) == |s|;
      assert s[0..] == s;
    }
  }

  /** The scan meets the declarative description of `re.split`. */
  lemma TokenizeSound(s: string)
    ensures IsRegexSplit(s, Tokenize(s))
  {
    ScanSound(s, 0);
    assert s[0..] == s;
  }

  /** The scan from `start` meets the declarative description for `s[start..]`. */
  lemma {:induction false} ScanSound(s: string, start: nat)
    requires start <= |s|
    ensures IsRegexSplit(s[start..], ScanFrom(s, start))
    decreases |s| - start
  {
    var i := NextColon(s, start);
    if i == |s| {
      assert forall m | 0 <= m < |s[start..]| :: s[start..][m] != ':';
    } else {
      var k := SeparatorEnd(s, i);
      ScanSound(s, k);
      ScanStep(s, start, i, k, ScanFrom(s, k));
    }
  }

  /** A name without colons, then a greedy separator, then a split of the
      rest, is a split of the whole. */
  lemma ScanStep(s: string, start: nat, i: nat, k: nat, rest: Pieces)
    requires start <= i < k <= |s|
    requires forall m | start <= m < i :: s[m] != ':'
    requires IsSeparator(s[i..k])
    requires k < |s| ==> s[k] != ':'
    requires k < |s| && EndsInWhitespacePart(s[i..k]) ==> s[k] !in Whitespace
    requires IsRegexSplit(s[k..], rest)
    ensures IsRegexSplit(s[start..], Pieces([s[start..i]] + rest.names, [s[i..k]] + rest.seps))
  {
    var t := Pieces([s[start..i]] + rest.names, [s[i..k]] + rest.seps);
    assert t.names[1..] == rest.names && t.seps[1..] == rest.seps;
    assert s[start..] == s[start..i] + s[i..k] + s[k..];
    assert ':' !in s[start..i] by {
      forall m | 0 <= m < i - start ensures s[start..i][m] != ':' {
        assert s[start..i][m] == s[start + m];
      }
    }
    InterleaveHead(s[k..], rest);
    assert forall m | 1 <= m < |t.names| :: t.names[m] == rest.names[m - 1];
    assert forall m | 1 <= m < |t.seps| :: t.seps[m] == rest.seps[m - 1];
  }

  /** The first name is a prefix of the joined text. */
  lemma InterleaveHead(s: string, t: Pieces)
    requires |t.names| == |t.seps| + 1 && Interleave(t.names, t.seps) == s
    ensures t.names[0] == s[..|t.names[0]|]
    ensures |t.seps| > 0 && t.seps[0] != [] ==> |t.names[0]| < |s| && s[|t.names[0]|] == t.seps[0][0]
  {
  }

  /** `Tokenize` is the only split of its kind: any decomposition meeting
      `IsRegexSplit` is the one the scan produces. */
  lemma TokenizeUnique(s: string, t: Pieces)
    requires IsRegexSplit(s, t)
    ensures Tokenize(s) == t
  {
    assert s[0..] == s;
    ScanUnique(s, 0, t);
  }

  /** The scan from `start` is the only split of `s[start..]` of its kind. */
  lemma {:induction false} ScanUnique(s: string, start: nat, t: Pieces)
    requires start <= |s| && IsRegexSplit(s[start..], t)
    ensures ScanFrom(s, start) == t
    decreases |t.seps|
  {
    if t.seps == [] {
      ScanUniqueLast(s, start, t);
    } else {
      var tail := Pieces(t.names[1..], t.seps[1..]);
      var c, k := SplitFirst(s, start, t);
      ScanUnique(s, k, tail);
      ScanReassemble(s, start, c, k, t);
    }
  }

  /** The scan's step from `start`, given that it finds `t`'s first name and
      separator and then `t`'s remaining pieces, yields `t`. */
  lemma ScanReassemble(s: string, start: nat, c: nat, k: nat, t: Pieces)
    requires |t.names| == |t.seps| + 1 && t.seps != []
    requires start <= c < |s| && NextColon(s, start) == c && SeparatorEnd(s, c) == k
    requires s[start..c] == t.names[0] && s[c..k] == t.seps[0]
    requires ScanFrom(s, k) == Pieces(t.names[1..], t.seps[1..])
    ensures ScanFrom(s, start) == t
  {
    ScanFromCons(s, start, c, k);
    assert [t.names[0]] + t.names[1..] == t.names;
    assert [t.seps[0]] + t.seps[1..] == t.seps;
  }

  /** A split without separators is the scan's single name. */
  lemma ScanUniqueLast(s: string, start: nat, t: Pieces)
    requires start <= |s| && IsRegexSplit(s[start..], t) && t.seps == []
    ensures ScanFrom(s, start) == t
  {
    assert s[start..] == t.names[0];
    assert NextColon(s, start) == |s|;
  }

  /** One step of the scan: the name up to the colon at `c`, the separator
      from `c` to `k`, then the scan from `k`. */
  lemma ScanFromCons(s: string, start: nat, c: nat, k: nat)
    requires start <= c < |s| && NextColon(s, start) == c && SeparatorEnd(s, c) == k
    ensures ScanFrom(s, start)
      == Pieces([s[start..c]] + ScanFrom(s, k).names, [s[c..k]] + ScanFrom(s, k).seps)
  {
  }

  /** The names collected so far, followed by the names of the scan from
      `start`, are the names collected one step later followed by the scan
      from the end `k` of the separator at `c`. */
  lemma ScanNamesStep(s: string, start: nat, c: nat, k: nat, names: seq<string>)
    requires start <= c < |s| && NextColon(s, start) == c && SeparatorEnd(s, c) == k
    ensures names + ScanFrom(s, start).names == (names + [s[start..c]]) + ScanFrom(s, k).names
  {
    ScanFromCons(s, start, c, k);
  }

  /** The end of the scan: no colon is left, so the rest is the last name. */
  lemma ScanFromLast(s: string, start: nat)
    requires start <= |s| && NextColon(s, start) == |s|
    ensures ScanFrom(s, start) == Pieces([s[start..]], [])
  {
  }

  /** The first name and separator of a split of `s[start..]` are where the
      scan finds them, and what follows is a split of the rest. */
  lemma SplitFirst(s: string, start: nat, t: Pieces) returns (c: nat, k: nat)
    requires start <= |s| && IsRegexSplit(s[start..], t) && t.seps != []
    ensures start <= c < k <= |s|
    ensures NextColon(s, start) == c && SeparatorEnd(s, c) == k
    ensures s[start..c] == t.names[0] && s[c..k] == t.seps[0]
    ensures IsRegexSplit(s[k..], Pieces(t.names[1..], t.seps[1..]))
  {
    c := start + |t.names[0]|;
    k := c + |t.seps[0]|;
    SplitAt(s, start, t);
    SplitTail(t);
    SplitTailStart(t);
    SeparatorEndOf(s, c, t.seps[0]);
  }

  /** Where the first name and separator of a split of `s[start..]` sit in `s`. */
  lemma SplitAt(s: string, start: nat, t: Pieces)
    requires start <= |s| && IsRegexSplit(s[start..], t) && t.seps != []
    ensures var c := start + |t.names[0]|;
      && c + |t.seps[0]| <= |s|
      && s[start..c] == t.names[0]
      && s[c..c + |t.seps[0]|] == t.seps[0]
      && s[c + |t.seps[0]|..] == Interleave(t.names[1..], t.seps[1..])
      && NextColon(s, start) == c
  {
    var head, q := t.names[0], t.seps[0];
    var r := Interleave(t.names[1..], t.seps[1..]);
    assert s[start..] == head + q + r;
    var c := start + |head|;
    assert s[c] == q[0];
    forall m | start <= m < c ensures s[m] != ':' {
      assert s[m] == head[m - start];
    }
  }

  /** A separator at `i` that the next character cannot extend is matched whole. */
  lemma SeparatorEndOf(s: string, i: nat, q: string)
    requires i + |q| <= |s| && s[i..i + |q|] == q && IsSeparator(q)
    requires i + |q| < |s| ==> s[i + |q|] != ':'
    requires i + |q| < |s| && EndsInWhitespacePart(q) ==> s[i + |q|] !in Whitespace
    ensures SeparatorEnd(s, i) == i + |q|
  {
    assert ':' !in Whitespace;
    var w: nat :| SeparatorShape(q, w);
    forall m | i <= m < i + |q| ensures s[m] == q[m - i] {
      assert s[i..i + |q|][m - i] == s[m];
    }
    SkipForwardUnique(s, i + 1, Whitespace, i + w);
    SkipForwardUnique(s, i + w, {':'}, i + |q|);
  }

  /** Dropping the first name and separator of a split leaves a split of the rest. */
  lemma SplitTail(t: Pieces)
    requires |t.names| == |t.seps| + 1 && t.seps != []
    requires IsRegexSplit(Interleave(t.names, t.seps), t)
    ensures IsRegexSplit(Interleave(t.names[1..], t.seps[1..]), Pieces(t.names[1..], t.seps[1..]))
  {
    var tail := Pieces(t.names[1..], t.seps[1..]);
    forall k | 0 <= k < |tail.names| ensures ':' !in tail.names[k] {
      assert tail.names[k] == t.names[k + 1];
    }
    forall k | 0 <= k < |tail.seps| ensures IsSeparator(tail.seps[k]) {
      assert tail.seps[k] == t.seps[k + 1];
    }
    forall k | 1 <= k < |tail.seps| ensures tail.names[k] != [] {
      assert tail.names[k] == t.names[k + 1];
    }
    forall k | 0 <= k < |tail.seps|
      ensures EndsInWhitespacePart(tail.seps[k]) && tail.names[k + 1] != [] ==> tail.names[k + 1][0] !in Whitespace
    {
      assert tail.names[k + 1] == t.names[k + 2] && tail.seps[k] == t.seps[k + 1];
    }
  }

  /** The text after the first separator of a split cannot extend that
      separator: it starts with neither a colon nor, when the separator has
      no trailing colons, whitespace. */
  lemma SplitTailStart(t: Pieces)
    requires |t.names| == |t.seps| + 1 && t.seps != []
    requires IsRegexSplit(Interleave(t.names, t.seps), t)
    ensures var r := Interleave(t.names[1..], t.seps[1..]);
      && (r != [] ==> r[0] != ':')
      && (r != [] && EndsInWhitespacePart(t.seps[0]) ==> r[0] !in Whitespace)
  {
    var tail := Pieces(t.names[1..], t.seps[1..]);
    var r := Interleave(tail.names, tail.seps);
    InterleaveHead(r, tail);
    if r != [] {
      assert r[0] == tail.names[0][0] == t.names[1][0];
    }
  }

  /** Consumes the match of `:\s*:*` that starts at the colon `s[i]`: first
      the whitespace, then the colons; returns where the match ends. */
  method ScanSeparator(s: string, i: nat) returns (k: nat)
    requires i < |s| && s[i] == ':'
    ensures k == SeparatorEnd(s, i)
  {
    var j := i + 1;
    while j < |s| && s[j] in Whitespace
      invariant i + 1 <= j <= |s|
      invariant forall m | i + 1 <= m < j :: s[m] in Whitespace
    {
      j := j + 1;
    }
    SkipForwardUnique(s, i + 1, Whitespace, j);
    k := j;
    while k < |s| && s[k] == ':'
      invariant j <= k <= |s|
      invariant forall m | j <= m < k :: s[m] == ':'
    {
      k := k + 1;
    }
    SkipForwardUnique(s, j, {':'}, k);
  }

  /** The left-to-right scan the handler runs over the cleaned reply: a
      name ends at each colon, and the separator there is consumed before
      the next name begins. */
  method SplitScan(s: string) returns (names: seq<string>)
    ensures names == Split(s)
  {
    names := [];
    var start: nat := 0;
    while true
      invariant start <= |s|
      invariant names + ScanFrom(s, start).names == Split(s)
      decreases |s| - start
    {
      var i := FindColon(s, start);
      if i == |s| {
        ScanFromLast(s, start);
        names := names + [s[start..]];
        return;
      }
      var k := ScanSeparator(s, i);
      ScanNamesStep(s, start, i, k, names);
      names := names + [s[start..i]];
      start := k;
    }
  }

  /** Walks from `start` to the next colon, or to the end of `s`. */
  method FindColon(s: string, start: nat) returns (i: nat)
    requires start <= |s|
    ensures i == NextColon(s, start)
  {
    i := start;
    while i < |s| && s[i] != ':'
      invariant start <= i <= NextColon(s, start)
    {
      NextColonPast(s, start, i);
      i := i + 1;
    }
    if i < |s| {
      NextColonAt(s, start, i);
    }
  }

  /** `" :a: "` cleans to `"a"`: the spaces go first, then the colons. */
  lemma CleanExample()
    ensures Clean(" :a: ") == "a"
  {
    assert TrimmedAt(" :a: ", ":a:", Whitespace, 1);
    assert TrimmedAt(":a:", "a", {':'}, 1);
    CleanUnique(" :a: ", ":a:", "a");
  }

  /** Whitespace inside the outer colons survives: `": a :"` is one name,
      `" a "`, spaces included. */
  lemma ParseSpacedExample()
    ensures ParseReply(": a :") == [" a "]
  {
    assert [':'] + " a " + [':'] == ": a :";
    CleanColonWrapped(" a ");
    SplitShape(" a ");
  }

  /** A colon-wrapped list of three emoji gives the three names: the outer
      colons are cleaned away and each `": :"` is one separator. */
  lemma ParseThreeExample()
    ensures ParseReply(":smile: :cook: :tada:") == ["smile", "cook", "tada"]
  {
    CleanThreeExample();
    SplitThreeExample();
  }

  /** Cleaning the three-emoji reply removes just its outer colons. */
  lemma CleanThreeExample()
    ensures Clean(":smile: :cook: :tada:") == "smile: :cook: :tada"
  {
    var c := "smile: :cook: :tada";
    assert [':'] + c + [':'] == ":smile: :cook: :tada:";
    CleanColonWrapped(c);
  }

  /** A reply wrapped in one colon on each side, with no further colon at
      either end inside, cleans to its inside: the colons are not
      whitespace, so the first trim keeps them and the second takes them. */
  lemma CleanColonWrapped(c: string)
    requires Bare(c, {':'})
    ensures Clean([':'] + c + [':']) == c
  {
    var reply := [':'] + c + [':'];
    assert ':' !in Whitespace;
    assert TrimmedAt(reply, reply, Whitespace, 0);
    assert reply[1..1 + |c|] == c;
    assert TrimmedAt(reply, c, {':'}, 1);
    CleanUnique(reply, reply, c);
  }

  /** The cleaned three-emoji reply splits at its two `": :"` separators. */
  lemma SplitThreeExample()
    ensures Split("smile: :cook: :tada") == ["smile", "cook", "tada"]
  {
    ThreePieces();
    TokenizeUnique("smile: :cook: :tada", Pieces(["smile", "cook", "tada"], [": :", ": :"]));
  }

  /** The three names with `": :"` between each pair meet the description
      of the split. */
  lemma ThreePieces()
    ensures IsRegexSplit("smile: :cook: :tada", Pieces(["smile", "cook", "tada"], [": :", ": :"]))
  {
    var t := Pieces(["smile", "cook", "tada"], [": :", ": :"]);
    SeparatorExample();
    ThreeInterleave();
    assert ':' !in "smile" && ':' !in "cook" && ':' !in "tada";
  }

  /** Joining the three names with `": :"` gives the cleaned reply. */
  lemma ThreeInterleave()
    ensures Interleave(["smile", "cook", "tada"], [": :", ": :"]) == "smile: :cook: :tada"
  {
    var t := Pieces(["smile", "cook", "tada"], [": :", ": :"]);
    assert Interleave(t.names[2..], t.seps[2..]) == "tada";
    assert Interleave(t.names[1..], t.seps[1..]) == "cook: :tada";
  }

  /** `": :"` is one separator, and it ends in its colon part. */
  lemma SeparatorExample()
    ensures IsSeparator(": :") && !EndsInWhitespacePart(": :")
  {
    assert ' ' in Whitespace;
    assert SeparatorShape(": :", 2);
  }

  /** A doubled colon is a single separator, not an empty name. */
  lemma ParseDoubleColonExample()
    ensures ParseReply("a::b") == ["a", "b"]
  {
    CleanUntrimmed("a::b");
    SplitDoubleColonExample();
  }

  /** A reply that starts and ends with neither whitespace nor a colon is
      left as it is. */
  lemma CleanUntrimmed(reply: string)
    requires Bare(reply, Whitespace + {':'})
    ensures Clean(reply) == reply
  {
    assert TrimmedAt(reply, reply, Whitespace, 0);
    assert TrimmedAt(reply, reply, {':'}, 0);
    CleanUnique(reply, reply, reply);
  }

  /** `"a::b"` has one separator, `"::"`, between two names. */
  lemma SplitDoubleColonExample()
    ensures Split("a::b") == ["a", "b"]
  {
    var t := Pieces(["a", "b"], ["::"]);
    assert SeparatorShape("::", 1);
    assert IsSeparator("::");
    assert Interleave(t.names, t.seps) == "a::b";
    assert IsRegexSplit("a::b", t);
    TokenizeUnique("a::b", t);
  }

  /** An empty reply still yields one, empty, name. */
  lemma ParseEmptyExample()
    ensures ParseReply("") == [""]
  {
    SplitShape("");
  }

  /** A colon reached before any other is the next colon. */
  lemma NextColonAt(s: string, start: nat, i: nat)
    requires start <= i < |s| && i <= NextColon(s, start) && s[i] == ':'
    ensures NextColon(s, start) == i
  {
  }

  /** A character other than a colon does not end the search. */
  lemma NextColonPast(s: string, start: nat, i: nat)
    requires start <= i < |s| && i <= NextColon(s, start) && s[i] != ':'
    ensures i + 1 <= NextColon(s, start)
  {
  }
}
