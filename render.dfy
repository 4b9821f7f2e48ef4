/** What the chat page shows for one message (`renderMessage` and the branch
    test of `getCodeOutput` in pages/index.js): the first fenced block, else
    the first inline code span, else the plain text; and for a code
    fragment, whether it is tried as a UI component or as an expression. */
module Render {
  import opened Strings

  /** The fence delimiter of a code block. */
  const Fence: string := "```"

  /** The delimiter of an inline code span. */
  const Tick: char := '`'

  /** The code fragment a message yields, and where it came from. */
  datatype Fragment = Fenced(code: string) | Inline(code: string) | Plain

  /** How `getCodeOutput` treats a fragment. */
  datatype Branch = Component | Expression

  /** What is shown for a message: the text itself, or a code view of a
      fragment together with the way it is run. */
  datatype View = PlainText(text: string) | CodeView(code: string, run: Branch)

  // ---------------------------------------------------------------------
  // What the two regular expressions match, stated directly.
  // ---------------------------------------------------------------------

  /** A candidate match of /```([\s\S]*?)```/: an opener at `p`, a closer
      at `k`, the closer starting at or after the end of the opener. */
  ghost predicate FenceSpan(s: string, p: int, k: int)
  {
    OccursAt(Fence, s, p) && p + |Fence| <= k && OccursAt(Fence, s, k)
  }

  /** The match the regular expression picks: the leftmost start, and for
      that start the nearest closer (the group is lazy). */
  ghost predicate FirstFenceSpan(s: string, p: int, k: int)
  {
    FenceSpan(s, p, k) &&
    (forall p', k' :: FenceSpan(s, p', k') ==> p <= p') &&
    (forall k' :: FenceSpan(s, p, k') ==> k <= k')
  }

  /** A candidate match of /`([^`]+)`/: backticks at `p` and `q`, at least
      one character between them and no backtick among those. */
  ghost predicate TickSpan(s: string, p: int, q: int)
  {
    0 <= p && p + 1 < q < |s| && s[p] == Tick && s[q] == Tick &&
    forall j :: p < j < q ==> s[j] != Tick
  }

  /** The match the regular expression picks: the leftmost one. */
  ghost predicate FirstTickSpan(s: string, p: int, q: int)
  {
    TickSpan(s, p, q) && forall p', q' :: TickSpan(s, p', q') ==> p <= p'
  }

  // ---------------------------------------------------------------------
  // The searches.
  // ---------------------------------------------------------------------

  /** Opener and closer positions of the fenced block the page uses: the
      first "```" in the text and the first "```" at or after its end. When
      the first opener has no closer, no later one has either. */
  function FindFence(s: string): (r: Option<(nat, nat)>)
    ensures r.Some? ==> FirstFenceSpan(s, r.value.0, r.value.1)
    ensures r.None? ==> forall p, k :: !FenceSpan(s, p, k)
  {
    match IndexFrom(s, Fence, 0)
    case None => None
    case Some(p) =>
      match IndexFrom(s, Fence, p + |Fence|)
      case None => None
      case Some(k) => Some((p, k))
  }

  /** Delimiter positions of the leftmost inline span starting at or after
      `from`: take the next backtick and the one after it; when the two are
      adjacent the span would be empty, so retry from the second. */
  function FindTickSpan(s: string, from: nat): (r: Option<(nat, nat)>)
    ensures r.Some? ==> from <= r.value.0 && TickSpan(s, r.value.0, r.value.1)
    ensures r.Some? ==> forall p, q :: from <= p && TickSpan(s, p, q) ==> r.value.0 <= p
    ensures r.None? ==> forall p, q :: from <= p ==> !TickSpan(s, p, q)
    decreases |s| - from
  {
    NextTick(s, from);
    match IndexFrom(s, [Tick], from)
    case None => None
    case Some(o) =>
      NextTick(s, o + 1);
      match IndexFrom(s, [Tick], o + 1)
      case None => None
      case Some(c) =>
        if o + 1 < c then Some((o, c)) else FindTickSpan(s, c)
  }

  /** What the search for the next backtick at or after `from` finds. */
  lemma NextTick(s: string, from: nat)
    ensures match IndexFrom(s, [Tick], from)
            case None => forall j :: from <= j < |s| ==> s[j] != Tick
            case Some(o) => o < |s| && s[o] == Tick && forall j :: from <= j < o ==> s[j] != Tick
  {
    match IndexFrom(s, [Tick], from)
    case None =>
      forall j | from <= j < |s| ensures s[j] != Tick {
        OccursAtChar(Tick, s, j);
      }
    case Some(o) =>
      OccursAtChar(Tick, s, o);
      forall j | from <= j < o ensures s[j] != Tick {
        OccursAtChar(Tick, s, j);
      }
  }

  // ---------------------------------------------------------------------
  // renderMessage and getCodeOutput.
  // ---------------------------------------------------------------------

  /** The fragment `renderMessage` picks out of a message's text: a fenced
      block wins whenever one exists, an inline span is used only when none
      does, and plain text only when neither regular expression matches. */
  function Extract(s: string): (r: Fragment)
    ensures r.Fenced? <==> exists p, k :: FenceSpan(s, p, k)
    ensures r.Fenced? ==> exists p, k :: FirstFenceSpan(s, p, k) && r.code == s[p + |Fence|..k]
    ensures r.Inline? ==> exists p, q :: FirstTickSpan(s, p, q) && r.code == s[p + 1..q]
    ensures r.Plain? <==> (forall p, k :: !FenceSpan(s, p, k)) && (forall p, q :: !TickSpan(s, p, q))
  {
    match FindFence(s)
    case Some((p, k)) => Fenced(s[p + |Fence|..k])
    case None =>
      match FindTickSpan(s, 0)
      case Some((p, q)) =>
        assert FirstTickSpan(s, p, q);
        Inline(s[p + 1..q])
      case None => Plain
  }

  /** The test `code.includes("<") && code.includes(">")`: a fragment is
      tried as a UI component exactly when it holds both angle brackets. */
  function Classify(code: string): (b: Branch)
    ensures b == Component <==> Includes(code, "<") && Includes(code, ">")
  {
    IncludesChar(code, '<');
    IncludesChar(code, '>');
    if '<' in code && '>' in code then Component else Expression
  }

  /** `renderMessage`: the plain text when no fragment is found, otherwise
      the fragment with the branch `getCodeOutput` takes for it. */
  function RenderMessage(text: string): (v: View)
    ensures v.PlainText? <==> Extract(text).Plain?
    ensures v.PlainText? ==> v.text == text
    ensures v.CodeView? ==> v.code == Extract(text).code && v.run == Classify(v.code)
  {
    match Extract(text)
    case Plain => PlainText(text)
    case Fenced(code) => CodeView(code, Classify(code))
    case Inline(code) => CodeView(code, Classify(code))
  }

  // ---------------------------------------------------------------------
  // Properties.
  // ---------------------------------------------------------------------

  /** A fenced fragment never contains "```": the lazy group stops at the
      first closer. */
  lemma FencedFragmentHasNoFence(s: string)
    requires Extract(s).Fenced?
    ensures !Includes(Extract(s).code, Fence)
  {
    var p, k := FindFence(s).value.0, FindFence(s).value.1;
    var lo := p + |Fence|;
    var f := s[lo..k];
    assert Extract(s).code == f;
    forall j ensures !OccursAt(Fence, f, j) {
      ShiftOccurrence(s, lo, k, j);
    }
  }

  /** An occurrence inside a slice is an occurrence in the whole text. */
  lemma ShiftOccurrence(s: string, lo: nat, hi: nat, j: int)
    requires lo <= hi <= |s|
    ensures OccursAt(Fence, s[lo..hi], j) ==> OccursAt(Fence, s, lo + j) && lo + j + |Fence| <= hi
  {
    if OccursAt(Fence, s[lo..hi], j) {
      var inner, outer := s[lo..hi][j..j + |Fence|], s[lo + j..lo + j + |Fence|];
      forall i | 0 <= i < |Fence| ensures inner[i] == outer[i] {
        assert inner[i] == s[lo + j + i];
      }
      assert inner == outer;
    }
  }

  /** Cutting a text around two delimiters that occur in it at `p` and `q`. */
  lemma Frame(s: string, d: string, p: nat, q: nat)
    requires OccursAt(d, s, p) && OccursAt(d, s, q) && p + |d| <= q
    ensures s == s[..p] + d + s[p + |d|..q] + d + s[q + |d|..]
  {
    assert s[..p] + s[p..p + |d|] == s[..p + |d|];
    assert s[..p + |d|] + s[p + |d|..q] == s[..q];
    assert s[..q] + s[q..q + |d|] == s[..q + |d|];
    assert s[..q + |d|] + s[q + |d|..] == s;
  }

  /** The fenced fragment is framed by fences in the text: it starts right
      after the first "```" of the text and is followed by "```". */
  lemma FencedFramed(s: string)
    requires Extract(s).Fenced?
    ensures IndexFrom(s, Fence, 0).Some?
    ensures var p, f := IndexFrom(s, Fence, 0).value, Extract(s).code;
            p + |f| + 6 <= |s| && s == s[..p] + Fence + f + Fence + s[p + |f| + 6..]
  {
    var p, k := FindFence(s).value.0, FindFence(s).value.1;
    assert IndexFrom(s, Fence, 0) == Some(p);
    assert Extract(s).code == s[p + 3..k];
    Frame(s, Fence, p, k);
  }

  /** An inline fragment is non-empty, holds no backtick, and is framed by
      backticks in the text. */
  lemma InlineShape(s: string)
    requires Extract(s).Inline?
    ensures |Extract(s).code| > 0 && Tick !in Extract(s).code
    ensures exists p :: 0 <= p && p + |Extract(s).code| + 2 <= |s| &&
              s == s[..p] + [Tick] + Extract(s).code + [Tick] + s[p + |Extract(s).code| + 2..]
  {
    var p, q := FindTickSpan(s, 0).value.0, FindTickSpan(s, 0).value.1;
    var f := s[p + 1..q];
    assert Extract(s).code == f;
    NoTickInside(s, p, q);
    OccursAtChar(Tick, s, p);
    OccursAtChar(Tick, s, q);
    Frame(s, [Tick], p, q);
  }

  /** The text strictly inside an inline span holds no backtick. */
  lemma NoTickInside(s: string, p: int, q: int)
    requires TickSpan(s, p, q)
    ensures |s[p + 1..q]| > 0 && Tick !in s[p + 1..q]
  {
  }

  /** The inline branch is reached only when no fenced block matches. */
  lemma InlineOnlyWithoutFence(s: string)
    requires Extract(s).Inline?
    ensures forall p, k :: !FenceSpan(s, p, k)
  {
  }

  /** A fence starts with a backtick. */
  lemma FenceHead(s: string, p: int)
    ensures OccursAt(Fence, s, p) ==> s[p] == Tick
  {
    if OccursAt(Fence, s, p) {
      assert s[p..p + 3][0] == s[p];
    }
  }

  /** Every fence in a text starts with a backtick. */
  lemma FenceHeads(s: string)
    ensures forall p :: OccursAt(Fence, s, p) ==> s[p] == Tick
  {
    forall p | OccursAt(Fence, s, p) ensures s[p] == Tick {
      FenceHead(s, p);
    }
  }

  /** Text without any backtick is shown as it is, and nothing is run. */
  lemma NoTickIsPlain(text: string)
    requires Tick !in text
    ensures RenderMessage(text) == PlainText(text)
  {
    FenceHeads(text);
  }

  /** A fenced block wins even over an inline span that comes before it:
      the fence test runs first, over the whole text. */
  lemma FenceBeatsEarlierInline(s: string, p: int, k: int, a: int, b: int)
    requires FenceSpan(s, p, k) && TickSpan(s, a, b) && b < p
    ensures Extract(s).Fenced?
    ensures RenderMessage(s).CodeView? && RenderMessage(s).code == Extract(s).code
  {
  }

  /** An instance of the above: the span "`a`" comes first, yet "b" is shown. */
  lemma FenceBeatsEarlierInlineExample()
    ensures Extract("`a` ```b```") == Fenced("b")
  {
    var s := "`a` ```b```";
    assert !OccursAt(Fence, s, 0) && !OccursAt(Fence, s, 1) && !OccursAt(Fence, s, 2) && !OccursAt(Fence, s, 3) by {
      FenceHead(s, 1);
      FenceHead(s, 3);
      assert s[0..3][1] == s[1];
      assert s[2..5][1] == s[3];
    }
    assert OccursAt(Fence, s, 4);
    assert IndexFrom(s, Fence, 0) == Some(4);
    assert !OccursAt(Fence, s, 7) by { FenceHead(s, 7); }
    assert OccursAt(Fence, s, 8);
    assert IndexFrom(s, Fence, 7) == Some(8);
    assert FindFence(s) == Some((4, 8));
    assert s[7..8] == "b";
  }

  /** A fenced expression is extracted without its fences and takes the
      expression branch. */
  lemma FencedExpressionExample()
    ensures RenderMessage("```2+2```") == CodeView("2+2", Expression)
  {
    FencedTwoPlusTwo();
    assert '<' !in "2+2";
  }

  /** The fragment of "```2+2```" is "2+2": the opener stands at 0 and the
      nearest closer at 6. */
  lemma FencedTwoPlusTwo()
    ensures Extract("```2+2```") == Fenced("2+2")
  {
    var s := "```2+2```";
    assert OccursAt(Fence, s, 0);
    assert IndexFrom(s, Fence, 0) == Some(0);
    assert !OccursAt(Fence, s, 3) && !OccursAt(Fence, s, 4) && !OccursAt(Fence, s, 5) by {
      FenceHead(s, 3);
      FenceHead(s, 4);
      FenceHead(s, 5);
    }
    assert OccursAt(Fence, s, 6);
    assert IndexFrom(s, Fence, 3) == Some(6);
    assert FindFence(s) == Some((0, 6));
    assert s[3..6] == "2+2";
  }

  /** Two fences with nothing between them give an empty fragment: the
      lazy group may match nothing. */
  lemma EmptyFenceExample()
    ensures Extract("``````") == Fenced("")
  {
    var s := "``````";
    assert OccursAt(Fence, s, 0);
    assert IndexFrom(s, Fence, 0) == Some(0);
    assert OccursAt(Fence, s, 3);
    assert IndexFrom(s, Fence, 3) == Some(3);
    assert FindFence(s) == Some((0, 3));
  }
}
