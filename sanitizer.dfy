/** The cleaning of a model reply in `extract_information_llm`: when the
    reply mentions "json" or "JSON", the source deletes every "```JSON",
    then every "```", then every "json", each with Python's
    `str.replace(old, "")`; otherwise it returns the reply untouched. */
module ResponseSanitizer {
  import opened Wrappers
  import opened Strings

  const FenceJson: string := "```JSON"
  const Fence: string := "```"
  const Tag: string := "json"
  const UpperTag: string := "JSON"

  /** Python's `s.replace(p, "")` for a non-empty `p`: scanning left to
      right, an occurrence of `p` is skipped whole and any other character is
      kept, so removed occurrences never overlap. */
  function RemoveAll(s: string, p: string): (r: string)
    requires p != []
    ensures |r| <= |s|
    decreases |s|
  {
    if s == [] then []
    else if OccursAt(s, p, 0) then RemoveAll(s[|p|..], p)
    else [s[0]] + RemoveAll(s[1..], p)
  }

  /** Reference definition: what CPython's `replace` does, which is to find
      the leftmost occurrence, keep the text before it, drop the occurrence
      and resume the search just after it. */
  function ReplaceByFind(s: string, p: string): string
    requires p != []
    decreases |s|
  {
    match IndexOf(s, p)
    case None => s
    case Some(i) => s[..i] + ReplaceByFind(s[i + |p|..], p)
  }

  /** The guard at the head of the cleaning. */
  predicate MentionsJson(t: string)
  {
    Contains(t, Tag) || Contains(t, UpperTag)
  }

  /** The reply as `extract_information_llm` returns it. Cleaning never
      lengthens the reply, and leaves a reply without the guard's tags as it is. */
  function Clean(t: string): (r: string)
    ensures |r| <= |t|
    ensures !MentionsJson(t) ==> r == t
  {
    if MentionsJson(t) then RemoveAll(RemoveAll(RemoveAll(t, FenceJson), Fence), Tag) else t
  }

  // ---------------------------------------------------------------------------
  // RemoveAll against the find-based reference and Python's count

  /** Text before the first occurrence is copied unchanged. */
  lemma {:induction false} RemoveAllKeepsPrefix(s: string, p: string, k: nat)
    requires p != [] && k <= |s|
    requires AbsentBefore(s, p, k)
    ensures RemoveAll(s, p) == s[..k] + RemoveAll(s[k..], p)
  {
    if k > 0 {
      var t := s[1..];
      assert RemoveAll(s, p) == [s[0]] + RemoveAll(t, p) by {
        assert !OccursAt(s, p, 0);
      }
      assert AbsentBefore(t, p, k - 1) by {
        forall i | 0 <= i < k - 1 ensures !OccursAt(t, p, i) { OccursAfterDrop(s, p, 1, i); }
      }
      RemoveAllKeepsPrefix(t, p, k - 1);
      assert t[k - 1..] == s[k..];
      assert s[..k] == [s[0]] + t[..k - 1];
    }
  }

  /** Removal copies the text before the leftmost occurrence and resumes
      just after that occurrence. */
  lemma RemoveAllAtLeftmost(s: string, p: string, i: nat)
    requires p != [] && OccursAt(s, p, i) && AbsentBefore(s, p, i)
    ensures RemoveAll(s, p) == s[..i] + RemoveAll(s[i + |p|..], p)
  {
    RemoveAllKeepsPrefix(s, p, i);
    OccursAfterDrop(s, p, i, 0);
    assert s[i..][|p|..] == s[i + |p|..];
  }

  /** `replace` changes the text exactly when the pattern occurs in it. */
  lemma RemoveAllUnchangedIff(s: string, p: string)
    requires p != []
    ensures RemoveAll(s, p) == s <==> !Contains(s, p)
  {
    IndexOfIsLeftmost(s, p);
    match IndexOf(s, p)
    case None =>
      RemoveAllKeepsPrefix(s, p, |s|);
      assert s[..|s|] == s;
    case Some(i) =>
      RemoveAllAtLeftmost(s, p, i);
      assert |RemoveAll(s, p)| <= |s| - |p|;
  }

  /** The scanning definition agrees with CPython's find-and-cut loop. */
  lemma {:induction false} RemoveAllIsReplaceByFind(s: string, p: string)
    requires p != []
    ensures RemoveAll(s, p) == ReplaceByFind(s, p)
    decreases |s|
  {
    match IndexOf(s, p)
    case None =>
      assert RemoveAll(s, p) == s by {
        IndexOfIsLeftmost(s, p);
        RemoveAllUnchangedIff(s, p);
      }
    case Some(i) =>
      var rest := s[i + |p|..];
      assert RemoveAll(s, p) == s[..i] + RemoveAll(rest, p) by {
        IndexOfIsLeftmost(s, p);
        RemoveAllAtLeftmost(s, p, i);
      }
      RemoveAllIsReplaceByFind(rest, p);
  }

  /** Each removal step shortens the text by its pattern's length once for
      every occurrence Python's `str.count` reports. */
  lemma RemoveAllLength(s: string, p: string)
    requires p != []
    ensures |s| == |RemoveAll(s, p)| + |p| * Count(s, p)
  {
    RemoveAllIsReplaceByFind(s, p);
    ReplaceByFindLength(s, p);
  }

  lemma {:induction false} ReplaceByFindLength(s: string, p: string)
    requires p != []
    ensures |s| == |ReplaceByFind(s, p)| + |p| * Count(s, p)
    decreases |s|
  {
    match IndexOf(s, p)
    case None =>
    case Some(i) =>
      var rest := s[i + |p|..];
      ReplaceByFindLength(rest, p);
      var c := Count(rest, p);
      assert Count(s, p) == 1 + c;
      assert |ReplaceByFind(s, p)| == i + |ReplaceByFind(rest, p)|;
      assert |p| * Count(s, p) == |p| + |p| * c by { MultiplySuccessor(|p|, c); }
  }

  /** Distributes a product over a successor. Kept as a lemma of its own so
      that the nonlinear step is solved outside the context of the recursion
      above, where it runs out of resource. */
  lemma MultiplySuccessor(a: int, c: int)
    ensures a * (1 + c) == a + a * c
  {
  }

  /** A text none of whose characters starts the pattern passes through, and
      removal resumes after it. */
  lemma RemoveAllSkips(a: string, b: string, p: string)
    requires p != [] && p[0] !in a
    ensures RemoveAll(a + b, p) == a + RemoveAll(b, p)
  {
    forall i | 0 <= i < |a| ensures !OccursAt(a + b, p, i) {
      if i + |p| <= |a + b| { assert (a + b)[i..i + |p|][0] == a[i]; }
    }
    RemoveAllKeepsPrefix(a + b, p, |a|);
    assert (a + b)[..|a|] == a && (a + b)[|a|..] == b;
  }

  /** Appending a character other than the pattern's last cannot create an
      occurrence. */
  lemma AppendKeepsAbsent(a: string, c: char, p: string)
    requires p != [] && p[|p| - 1] != c && !Contains(a, p)
    ensures !Contains(a + [c], p)
  {
    var n := a + [c];
    forall i | 0 <= i && i + |p| <= |n| ensures !OccursAt(n, p, i) {
      if i + |p| <= |a| {
        assert n[i..i + |p|] == a[i..i + |p|];
        assert !OccursAt(a, p, i);
      } else {
        assert n[i..i + |p|][|p| - 1] == c;
      }
    }
  }

  // ---------------------------------------------------------------------------
  // The intermediate text after the "```" removal

  /** A text starts with a fence exactly when it starts with three backticks. */
  lemma FenceAtStart(x: string)
    ensures OccursAt(x, Fence, 0) <==> LeadingRun(x, '`') >= 3
  {
    if LeadingRun(x, '`') >= 3 {
      LeadingRunChars(x, '`', 0);
      LeadingRunChars(x, '`', 1);
      LeadingRunChars(x, '`', 2);
      assert x[..3] == Fence;
    }
    if OccursAt(x, Fence, 0) {
      LeadingRunDrop(x, '`', 3);
    }
  }

  /** A leading run of fewer than three backticks survives the "```"
      removal unchanged. */
  lemma {:induction false} FenceRemovalKeepsShortRun(s: string)
    requires LeadingRun(s, '`') < 3
    ensures LeadingRun(RemoveAll(s, Fence), '`') == LeadingRun(s, '`')
    decreases |s|
  {
    if s != [] {
      FenceAtStart(s);
      var rest := RemoveAll(s[1..], Fence);
      assert RemoveAll(s, Fence) == [s[0]] + rest;
      if s[0] == '`' {
        FenceRemovalKeepsShortRun(s[1..]);
        assert ([s[0]] + rest)[1..] == rest;
      }
    }
  }

  /** No "```" remains after the second step, whatever the reply. */
  lemma {:induction false} FenceRemovalLeavesNoFence(s: string)
    ensures !Contains(RemoveAll(s, Fence), Fence)
    decreases |s|
  {
    if s == [] {
    } else if OccursAt(s, Fence, 0) {
      FenceRemovalLeavesNoFence(s[3..]);
    } else {
      var rest := RemoveAll(s[1..], Fence);
      var r := [s[0]] + rest;
      assert RemoveAll(s, Fence) == r;
      FenceRemovalLeavesNoFence(s[1..]);
      assert r[1..] == rest;
      forall i | 0 < i ensures !OccursAt(r, Fence, i) { OccursAfterDrop(r, Fence, 1, i - 1); }
      FenceAtStart(s);
      FenceAtStart(r);
      if s[0] == '`' {
        FenceRemovalKeepsShortRun(s[1..]);
      }
    }
  }

  /** The text handed to the last step, after "```JSON" and "```" are gone,
      contains no "```". */
  lemma IntermediateHasNoFence(t: string)
    ensures !Contains(RemoveAll(RemoveAll(t, FenceJson), Fence), Fence)
  {
    FenceRemovalLeavesNoFence(RemoveAll(t, FenceJson));
  }

  // ---------------------------------------------------------------------------
  // Cleaning as a whole

  /** A reply fenced as a json code block, whose body has no backtick and no
      "json", comes out as the body between the two line breaks. */
  lemma CleanFencedReply(body: string)
    requires '`' !in body && !Contains(body, Tag)
    ensures Clean("```json\n" + body + "\n```") == "\n" + body + "\n"
  {
    var t := "```json\n" + body + "\n```";
    assert OccursAt(t, Tag, 3) by { assert t[3..7] == Tag; }
    FencedReplyHasNoFenceJson(body);
    FencedReplyLosesFences(body);
    FencedReplyLosesTag(body);
  }

  lemma FencedReplyHasNoFenceJson(body: string)
    requires '`' !in body
    ensures RemoveAll("```json\n" + body + "\n```", FenceJson) == "```json\n" + body + "\n```"
  {
    var t := "```json\n" + body + "\n```";
    var m := "json\n" + body + "\n";
    assert t[..3] == Fence && t[3..] == m + Fence && t[3] == 'j';
    LowerTagAfterTicks(t);
    RemoveAllKeepsPrefix(t, FenceJson, 3);
    RemoveAllSkips(m, Fence, FenceJson);
    RemoveAllUnchangedIff(Fence, FenceJson);
    assert t[..3] + (m + Fence) == t;
  }

  /** No "```JSON" starts among the first three characters when the fourth
      is a lower-case 'j'. */
  lemma LowerTagAfterTicks(t: string)
    requires |t| > 3 && t[3] == 'j'
    ensures AbsentBefore(t, FenceJson, 3)
  {
    forall i | 0 <= i < 3 ensures !OccursAt(t, FenceJson, i) {
      if i + 7 <= |t| {
        var w := t[i..i + 7];
        assert w[3 - i] == t[3];
      }
    }
  }

  lemma FencedReplyLosesFences(body: string)
    requires '`' !in body
    ensures RemoveAll("```json\n" + body + "\n```", Fence) == "json\n" + body + "\n"
  {
    var t := "```json\n" + body + "\n```";
    var m := "json\n" + body + "\n";
    assert t[..3] == Fence && t[3..] == m + Fence;
    RemoveAllSkips(m, Fence, Fence);
    assert RemoveAll(Fence, Fence) == [] by { assert Fence[3..] == []; }
    assert m + [] == m;
  }

  lemma FencedReplyLosesTag(body: string)
    requires !Contains(body, Tag)
    ensures RemoveAll("json\n" + body + "\n", Tag) == "\n" + body + "\n"
  {
    var n := body + "\n";
    assert "json\n" + body + "\n" == Tag + ("\n" + n);
    assert RemoveAll(Tag + ("\n" + n), Tag) == RemoveAll("\n" + n, Tag) by {
      assert (Tag + ("\n" + n))[..4] == Tag;
      assert (Tag + ("\n" + n))[4..] == "\n" + n;
    }
    RemoveAllSkips("\n", n, Tag);
    assert RemoveAll(n, Tag) == n by {
      AppendKeepsAbsent(body, '\n', Tag);
      RemoveAllUnchangedIff(n, Tag);
    }
  }

  /** A reply with no backtick and no lower-case "json" is returned as it is,
      even when it contains an upper-case "JSON" that trips the guard. */
  lemma CleanKeepsPlainText(s: string)
    requires '`' !in s && !Contains(s, Tag)
    ensures Clean(s) == s
  {
    NoTickTextSurvivesFences(s);
    RemoveAllUnchangedIff(s, Tag);
  }

  /** A bare upper-case "JSON" trips the guard and still comes back whole:
      only a "JSON" right after a fence is ever removed. */
  lemma CleanKeepsBareUpperTag(x: string)
    requires x == "JSON"
    ensures MentionsJson(x) && Clean(x) == x
  {
    assert OccursAt(x, UpperTag, 0);
    assert !Contains(x, Tag) by {
      assert x[0..4][0] != Tag[0];
    }
    CleanKeepsPlainText(x);
  }

  /** When the guard trips, each of the three steps shortens the reply by its
      pattern's length once per occurrence counted in its own input. */
  lemma CleanLength(t: string)
    requires MentionsJson(t)
    ensures var a := RemoveAll(t, FenceJson);
            var b := RemoveAll(a, Fence);
            |t| == |Clean(t)| + 7 * Count(t, FenceJson) + 3 * Count(a, Fence) + 4 * Count(b, Tag)
  {
    var a := RemoveAll(t, FenceJson);
    var b := RemoveAll(a, Fence);
    RemoveAllLength(t, FenceJson);
    RemoveAllLength(a, Fence);
    RemoveAllLength(b, Tag);
  }

  /** The first two steps leave a text without backticks alone. */
  lemma NoTickTextSurvivesFences(s: string)
    requires '`' !in s
    ensures RemoveAll(s, FenceJson) == s && RemoveAll(s, Fence) == s
  {
    FirstCharAbsent(s, FenceJson);
    RemoveAllUnchangedIff(s, FenceJson);
    FirstCharAbsent(s, Fence);
    RemoveAllUnchangedIff(s, Fence);
  }

  // ---------------------------------------------------------------------------
  // What cleaning does not promise
  //
  // The example lemmas here (and CleanKeepsBareUpperTag above) take their
  // string as a parameter fixed by `requires x == "..."` instead of writing
  // the literal into the ensures: a literal argument lets the verifier unfold
  // RemoveAll on it without bound and run out of resource.

  /** The last step can join backticks into a new fence. */
  lemma CleanCanJoinFence(x: string)
    requires x == "`json``"
    ensures Clean(x) == Fence
  {
    assert MentionsJson(x) by { assert OccursAt(x, Tag, 1) by { assert x[1..5] == Tag; } }
    assert RemoveAll(x, FenceJson) == x by {
      assert !Contains(x, FenceJson) by { assert x[0..7][1] != FenceJson[1]; }
      RemoveAllUnchangedIff(x, FenceJson);
    }
    assert RemoveAll(x, Fence) == x by {
      forall i | 0 <= i && i + 3 <= |x| ensures !OccursAt(x, Fence, i) {
        if i <= 3 { assert x[i..i + 3][1] == x[i + 1]; } else { assert x[i..i + 3][0] == x[4]; }
      }
      RemoveAllUnchangedIff(x, Fence);
    }
    assert RemoveAll(x, Tag) == Fence by {
      assert !OccursAt(x, Tag, 0) by { assert x[0..4][0] != Tag[0]; }
      assert OccursAt(x, Tag, 1) by { assert x[1..5] == Tag; }
      RemoveAllAtLeftmost(x, Tag, 1);
      var rest := x[5..];
      assert RemoveAll(rest, Tag) == rest by { RemoveAllUnchangedIff(rest, Tag); }
      var r := x[..1] + rest;
      assert r == Fence by { forall j | 0 <= j < 3 ensures r[j] == Fence[j] { } }
    }
  }

  /** Cleaning is not idempotent: a second pass removes the "json" that the
      first pass assembled. */
  lemma CleanNotIdempotent(x: string)
    requires x == "jsjsonon"
    ensures Clean(x) == Tag
    ensures Clean(Clean(x)) == []
  {
    CleanAssemblesTag(x);
    assert Clean(Tag) == [] by {
      assert MentionsJson(Tag) by { assert OccursAt(Tag, Tag, 0); }
      NoTickTextSurvivesFences(Tag);
      assert RemoveAll(Tag, Tag) == [] by { assert Tag[4..] == []; }
    }
  }

  lemma CleanAssemblesTag(x: string)
    requires x == "jsjsonon"
    ensures Clean(x) == Tag
  {
    assert MentionsJson(x) by { assert OccursAt(x, Tag, 2) by { assert x[2..6] == Tag; } }
    NoTickTextSurvivesFences(x);
    assert RemoveAll(x, Tag) == Tag by {
      assert !OccursAt(x, Tag, 0) by { assert x[0..4][2] != Tag[2]; }
      assert !OccursAt(x, Tag, 1) by { assert x[1..5][0] != Tag[0]; }
      assert OccursAt(x, Tag, 2) by { assert x[2..6] == Tag; }
      RemoveAllAtLeftmost(x, Tag, 2);
      var rest := x[6..];
      assert RemoveAll(rest, Tag) == rest by { RemoveAllUnchangedIff(rest, Tag); }
      var r := x[..2] + rest;
      assert r == Tag by { forall j | 0 <= j < 4 ensures r[j] == Tag[j] { } }
    }
  }

  /** Removing "```JSON" can assemble a new "```JSON". */
  lemma FenceJsonRemovalCanReassemble(x: string)
    requires x == "`````JSON`JSON"
    ensures RemoveAll(x, FenceJson) == FenceJson
  {
    assert OccursAt(x, FenceJson, 2) by {
      var w := x[2..9];
      assert w == FenceJson by {
        assert FenceJson == "```JSON";
        forall j | 0 <= j < 7 ensures w[j] == FenceJson[j] { assert w[j] == x[j + 2]; }
      }
    }
    assert AbsentBefore(x, FenceJson, 2) by {
      assert !OccursAt(x, FenceJson, 0) by { assert x[0..7][3] != FenceJson[3]; }
      assert !OccursAt(x, FenceJson, 1) by { assert x[1..8][3] != FenceJson[3]; }
    }
    RemoveAllAtLeftmost(x, FenceJson, 2);
    var rest := x[9..];
    assert RemoveAll(rest, FenceJson) == rest by { RemoveAllUnchangedIff(rest, FenceJson); }
    var r := x[..2] + rest;
    assert r == FenceJson by { forall j | 0 <= j < 7 ensures r[j] == FenceJson[j] { } }
  }
}
