/**
  * `parseCustomJSONString` (src/helper/str.ts): the normaliser applied to
  * a language model's free-form answer before it is parsed as JSON.
  *
  * The answer is rewritten by four `replace` calls, in this order:
  *   1. the first "```html" is removed (string pattern: first occurrence),
  *   2. the first "```json" is removed,
  *   3. every "```" is removed (`/```/g`),
  *   4. every line feed is removed (`/\n/g`);
  * the result goes to `JSON.parse`, and any exception becomes `null`.
  *
  * `JSON.parse` is not modelled: it is the parameter `decode`, a partial
  * decoder whose `None` stands for "threw". Its one assumed property is
  * that it rejects the empty string (`RejectsEmpty`), as `JSON.parse("")`
  * throws.
  */
module StrHelper {
  import opened Wrappers
  import opened Text

  const Fence: string := "```"
  const HtmlFence: string := "```html"
  const JsonFence: string := "```json"

  /** Steps 1-3: the fence markers removed, line feeds still present. */
  function StripFences(s: string): string {
    ReplaceAll(ReplaceFirst(ReplaceFirst(s, HtmlFence, ""), JsonFence, ""), Fence, "")
  }

  /** Steps 1-4: the string handed to `JSON.parse`. */
  function Normalise(s: string): string {
    ReplaceAll(StripFences(s), "\n", "")
  }

  /** The decoder throws on the empty string, as `JSON.parse("")` does. */
  predicate RejectsEmpty<J>(decode: string -> Option<J>) {
    decode("") == None
  }

  /** `parseCustomJSONString(str)`. `str` is `None` when the caller passes
      `null` or `undefined`; `str || ''` turns that into `""`. The function
      is total: every failure of the decoder is the result `None` (`null`). */
  function ParseCustomJSONString<J>(str: Option<string>, decode: string -> Option<J>): (r: Option<J>)
    ensures RejectsEmpty(decode) && (str == None || str == Some("")) ==> r == None
  {
    var contentStr := str.GetOr("");
    decode(Normalise(contentStr))
  }

  // ---------------------------------------------------------------------
  // What the decoder sees
  // ---------------------------------------------------------------------

  /** `null`, `undefined` and `""` all reach the decoder as `""`, which is
      why they give `null`. */
  lemma NullishInputReachesDecoderEmpty(str: Option<string>)
    requires str == None || str == Some("")
    ensures Normalise(str.GetOr("")) == ""
  {
  }

  /** The decoder never sees a line feed. */
  lemma DecoderSeesNoLineFeed(s: string)
    ensures '\n' !in Normalise(s)
  {
    ReplaceAllChar(StripFences(s), '\n');
  }

  /** The number of leading backticks of `s`. */
  function LeadingTicks(s: string): nat
    decreases |s|
  {
    if s != [] && s[0] == '`' then 1 + LeadingTicks(s[1..]) else 0
  }

  /** `s` starts with a fence exactly when it starts with three backticks. */
  lemma FenceAtStart(s: string)
    ensures Fence <= s <==> LeadingTicks(s) >= 3
    ensures Fence <= s ==> LeadingTicks(s) == 3 + LeadingTicks(s[3..])
  {
    if s != [] && s[0] == '`' {
      var t := s[1..];
      assert LeadingTicks(s) == 1 + LeadingTicks(t);
      if t != [] && t[0] == '`' {
        var u := t[1..];
        assert LeadingTicks(t) == 1 + LeadingTicks(u);
        if u != [] && u[0] == '`' {
          assert LeadingTicks(u) == 1 + LeadingTicks(u[1..]);
          assert u[1..] == s[3..];
          assert s[..3] == Fence;
        } else {
          assert LeadingTicks(u) == 0;
          assert |s| < 3 || s[2] != '`';
        }
      } else {
        assert LeadingTicks(t) == 0;
        assert |s| < 2 || s[1] != '`';
      }
    } else {
      assert LeadingTicks(s) == 0;
    }
  }

  /** The global removal of "```" shrinks a leading run of k backticks
      to k % 3 of them. */
  lemma {:induction false} RemovingFencesTicks(s: string)
    ensures LeadingTicks(ReplaceAll(s, Fence, "")) == LeadingTicks(s) % 3
    decreases |s|
  {
    var r := ReplaceAll(s, Fence, "");
    if s == [] {
      assert r == [];
    } else if Fence <= s {
      var t := s[3..];
      RemovingFencesTicks(t);
      assert r == "" + ReplaceAll(t, Fence, "");
      assert "" + ReplaceAll(t, Fence, "") == ReplaceAll(t, Fence, "");
      FenceAtStart(s);
      var k := LeadingTicks(t);
      assert LeadingTicks(s) == k + 3;
      assert (k + 3) % 3 == k % 3;
    } else {
      var t := s[1..];
      var rt := ReplaceAll(t, Fence, "");
      RemovingFencesTicks(t);
      assert r == [s[0]] + rt;
      assert r[1..] == rt;
      FenceAtStart(s);
      if s[0] == '`' {
        var k := LeadingTicks(t);
        assert LeadingTicks(s) == 1 + k && k < 2;
        assert k % 3 == k;
        assert LeadingTicks(r) == 1 + k;
      } else {
        assert LeadingTicks(r) == 0 && LeadingTicks(s) == 0;
      }
    }
  }

  /** The global removal of "```" leaves no "```" behind, and a
      leading run of k backticks shrinks to k % 3 of them. */
  lemma {:induction false} RemovingFencesLeavesNone(s: string)
    ensures !Occurs(ReplaceAll(s, Fence, ""), Fence)
    ensures LeadingTicks(ReplaceAll(s, Fence, "")) == LeadingTicks(s) % 3
    decreases |s|
  {
    var r := ReplaceAll(s, Fence, "");
    RemovingFencesTicks(s);
    if s == [] {
      assert r == [];
    } else if Fence <= s {
      var t := s[3..];
      RemovingFencesLeavesNone(t);
      assert r == "" + ReplaceAll(t, Fence, "");
      assert "" + ReplaceAll(t, Fence, "") == ReplaceAll(t, Fence, "");
    } else {
      var t := s[1..];
      var rt := ReplaceAll(t, Fence, "");
      RemovingFencesLeavesNone(t);
      assert r == [s[0]] + rt;
      FenceAtStart(s);
      ConsKeepsNoFence(s[0], rt);
    }
  }

  /** One character put in front of a fence-free text makes no fence when
      the result has fewer than three leading backticks. */
  lemma ConsKeepsNoFence(c: char, t: string)
    requires !Occurs(t, Fence)
    requires LeadingTicks([c] + t) < 3
    ensures !Occurs([c] + t, Fence)
  {
    var r := [c] + t;
    FenceAtStart(r);
    forall i: nat | 0 < i <= |r| ensures !OccursAt(r, Fence, i) {
      assert r[i..] == t[i - 1..];
      assert !OccursAt(t, Fence, i - 1);
    }
    assert !OccursAt(r, Fence, 0);
  }

  /** After steps 1-3 and before step 4, no "```" remains. */
  lemma NoFenceAfterStripping(s: string)
    ensures !Occurs(StripFences(s), Fence)
  {
    RemovingFencesLeavesNone(ReplaceFirst(ReplaceFirst(s, HtmlFence, ""), JsonFence, ""));
  }

  /** Step 4 can join backticks that step 3 left apart: "``\n`" reaches the
      decoder as "```". */
  lemma FenceCanReappearAfterLineFeedRemoval()
    ensures Normalise("``\n`") == "```"
  {
    var s := "``\n`";
    ReplaceFirstTooShort(s, HtmlFence, "");
    ReplaceFirstTooShort(s, JsonFence, "");
    assert !(Fence <= s) && ReplaceAll(s, Fence, "") == [s[0]] + ReplaceAll(s[1..], Fence, "");
    assert !(Fence <= s[1..]) && ReplaceAll(s[1..], Fence, "") == [s[1]] + ReplaceAll(s[2..], Fence, "");
    assert s[2..] == "\n`";
    assert ReplaceAll(s[2..], Fence, "") == "\n`";
    assert StripFences(s) == s;
    ReplaceAllChar(s, '\n');
  }

  /** Text with no "```" and no line feed reaches the decoder unchanged;
      single and double backticks, as in inline code, are kept. */
  lemma PlainInputUnchanged(s: string)
    requires !Occurs(s, Fence) && '\n' !in s
    ensures Normalise(s) == s
  {
    OnlyLineFeedsRemoved(s);
    WithoutAbsent(s, '\n');
  }

  /** Without "```", only line feeds are removed: carriage returns, inline
      backticks and the two-character escape `\n` inside JSON strings are
      kept. */
  lemma OnlyLineFeedsRemoved(s: string)
    requires !Occurs(s, Fence)
    ensures Normalise(s) == Without(s, '\n')
  {
    forall i: nat | i <= |s| ensures !OccursAt(s, HtmlFence, i) && !OccursAt(s, JsonFence, i) {
      FenceStartsMarker(s, HtmlFence, i);
      FenceStartsMarker(s, JsonFence, i);
    }
    ReplaceFirstAbsent(s, HtmlFence, "");
    ReplaceFirstAbsent(s, JsonFence, "");
    ReplaceAllAbsent(s, Fence, "");
    ReplaceAllChar(s, '\n');
  }

  /** The escape sequence backslash-n survives normalisation. */
  lemma EscapedLineFeedSurvives(a: string, b: string)
    requires '`' !in a && '`' !in b
    ensures Normalise(a + "\\n" + b) == Without(a, '\n') + "\\n" + Without(b, '\n')
  {
    assert '`' !in a + "\\n" + b;
    TickFreeHasNoFence(a + "\\n" + b);
    OnlyLineFeedsRemoved(a + "\\n" + b);
    WithoutAppend(a + "\\n", b, '\n');
    WithoutAppend(a, "\\n", '\n');
    WithoutAbsent("\\n", '\n');
  }

  /** Every character outside the fence markers and the line feed (a
      carriage return, a backslash, ...) keeps its number of occurrences. */
  lemma KeepsOtherCharacters(s: string, c: char)
    requires c !in HtmlFence && c !in JsonFence && c != '\n'
    ensures multiset(Normalise(s))[c] == multiset(s)[c]
  {
    var s1 := ReplaceFirst(s, HtmlFence, "");
    var s2 := ReplaceFirst(s1, JsonFence, "");
    ReplaceFirstKeepsCount(s, HtmlFence, c);
    ReplaceFirstKeepsCount(s1, JsonFence, c);
    ReplaceAllKeepsCount(s2, Fence, c);
    ReplaceAllKeepsCount(StripFences(s), "\n", c);
  }

  // ---------------------------------------------------------------------
  // Fenced answers
  // ---------------------------------------------------------------------

  /** Steps 1 and 2 pass over a bare fence that is not followed by the
      rest of their pattern. */
  lemma SkipsBareFence(t: string, pat: string)
    requires pat == HtmlFence || pat == JsonFence
    requires t != [] && t[0] != '`' && t[0] != pat[3]
    ensures ReplaceFirst(Fence + t, pat, "") == Fence + ReplaceFirst(t, pat, "")
  {
    var s := Fence + t;
    assert s[3] == t[0];
    assert !(pat <= s);
    assert ReplaceFirst(s, pat, "") == [s[0]] + ReplaceFirst(s[1..], pat, "");
    assert s[1..][2] == t[0] && !(pat <= s[1..]);
    assert ReplaceFirst(s[1..], pat, "") == [s[1]] + ReplaceFirst(s[1..][1..], pat, "");
    assert s[1..][1..] == s[2..];
    assert s[2..][1] == t[0] && !(pat <= s[2..]);
    assert ReplaceFirst(s[2..], pat, "") == [s[2]] + ReplaceFirst(s[2..][1..], pat, "");
    assert s[2..][1..] == t;
  }

  /** Step 3 removes a fence that follows a backtick-free text. */
  lemma DropsTrailingFence(body: string, t: string)
    requires '`' !in body
    ensures ReplaceAll(body + Fence + t, Fence, "") == body + ReplaceAll(t, Fence, "")
  {
    assert body + Fence + t == body + (Fence + t);
    ReplaceAllSkips(body, Fence + t, Fence, "");
    assert Fence <= Fence + t && (Fence + t)[3..] == t;
  }

  /** Line feeds removed from LF + x + LF leave x without its line feeds. */
  lemma LineFeedsAround(x: string)
    ensures ReplaceAll("\n" + x + "\n", "\n", "") == Without(x, '\n')
  {
    ReplaceAllChar("\n" + x + "\n", '\n');
    WithoutAppend("\n" + x, "\n", '\n');
    WithoutAppend("\n", x, '\n');
    assert Without("\n", '\n') == [];
    assert [] + Without(x, '\n') + [] == Without(x, '\n');
  }

  /** A backtick-free text is left alone by steps 1 and 2. */
  lemma KeepsTickFree(t: string, pat: string)
    requires pat == HtmlFence || pat == JsonFence
    requires '`' !in t
    ensures ReplaceFirst(t, pat, "") == t
  {
    assert t + [] == t;
    ReplaceFirstSkips(t, [], pat, "");
  }

  /** Steps 1 and 2 pass over a backtick-free text and a bare fence. */
  lemma PassesBareFence(x: string, tail: string, pat: string)
    requires pat == HtmlFence || pat == JsonFence
    requires '`' !in x && tail != [] && tail[0] != '`' && tail[0] != pat[3]
    ensures ReplaceFirst(x + Fence + tail, pat, "") == x + Fence + ReplaceFirst(tail, pat, "")
  {
    var u := Fence + tail;
    var v := ReplaceFirst(tail, pat, "");
    calc {
      ReplaceFirst(x + Fence + tail, pat, "");
      { assert x + Fence + tail == x + u; }
      ReplaceFirst(x + u, pat, "");
      { assert pat[0] == '`'; ReplaceFirstSkips(x, u, pat, ""); }
      x + ReplaceFirst(u, pat, "");
      { SkipsBareFence(tail, pat); }
      x + (Fence + v);
      x + Fence + v;
    }
  }

  // Fence-free text

  /** An occurrence of a marker that starts with "```" is an occurrence of
      "```". */
  lemma FenceStartsMarker(s: string, pat: string, i: nat)
    requires Fence <= pat
    ensures OccursAt(s, pat, i) ==> OccursAt(s, Fence, i)
  {
    if OccursAt(s, pat, i) {
      assert s[i..][..3] == pat[..3];
    }
  }

  /** Text without backticks has no fence. */
  lemma TickFreeHasNoFence(s: string)
    requires '`' !in s
    ensures !Occurs(s, Fence)
  {
    forall i: nat | i < |s| ensures !(Fence <= s[i..]) {
      assert s[i..][0] == s[i];
    }
  }

  /** Two fence-free texts joined where a non-backtick character touches the
      seam have no fence: a fence across the seam would have to cover it. */
  lemma NoFenceAcrossSeam(a: string, b: string)
    requires !Occurs(a, Fence) && !Occurs(b, Fence)
    requires (a != [] && a[|a| - 1] != '`') || (b != [] && b[0] != '`')
    ensures !Occurs(a + b, Fence)
  {
    var s := a + b;
    forall i: nat | i <= |s| ensures !OccursAt(s, Fence, i) {
      if i + 3 <= |a| {
        assert s[i..][..3] == a[i..][..3];
        assert !OccursAt(a, Fence, i);
      } else if i < |a| {
        if |s| >= i + 3 {
          if a != [] && a[|a| - 1] != '`' {
            assert s[i..][|a| - 1 - i] == a[|a| - 1];
          } else {
            assert s[i..][|a| - i] == b[0];
          }
        }
      } else {
        assert s[i..] == b[i - |a|..];
        assert !OccursAt(b, Fence, i - |a|);
      }
    }
  }

  /** The wrapper's line feeds keep a fence-free answer fence-free. */
  lemma FramedHasNoFence(x: string)
    requires !Occurs(x, Fence)
    ensures !Occurs("\n" + x + "\n", Fence)
  {
    TickFreeHasNoFence("\n");
    NoFenceAcrossSeam("\n", x);
    NoFenceAcrossSeam("\n" + x, "\n");
  }

  /** No marker starting with "```" starts inside a fence-free text that
      ends in a line feed, whatever follows it. */
  lemma NoMarkerInside(body: string, t: string, pat: string)
    requires Fence <= pat
    requires body != [] && body[|body| - 1] == '\n' && !Occurs(body, Fence)
    ensures forall i: nat :: i < |body| ==> !OccursAt(body + t, pat, i)
  {
    var s := body + t;
    forall i: nat | i < |body| ensures !OccursAt(s, pat, i) {
      FenceStartsMarker(s, pat, i);
      if i + 3 <= |body| {
        assert s[i..][..3] == body[i..][..3];
        assert !OccursAt(body, Fence, i);
      } else if |s| >= i + 3 {
        assert s[i..][|body| - 1 - i] == body[|body| - 1];
      }
    }
  }

  /** Steps 1 and 2 leave a fence-free, line-feed-terminated text followed
      by the closing fence alone. */
  lemma KeepsClosingFence(body: string, pat: string)
    requires pat == HtmlFence || pat == JsonFence
    requires body != [] && body[|body| - 1] == '\n' && !Occurs(body, Fence)
    ensures ReplaceFirst(body + Fence, pat, "") == body + Fence
  {
    NoMarkerInside(body, Fence, pat);
    ReplaceFirstSkipsClear(body, Fence, pat, "");
    ReplaceFirstTooShort(Fence, pat, "");
  }

  /** Step 3 on such a text removes exactly the closing fence. */
  lemma DropsClosingFence(body: string)
    requires body != [] && body[|body| - 1] == '\n' && !Occurs(body, Fence)
    ensures ReplaceAll(body + Fence, Fence, "") == body
  {
    NoMarkerInside(body, Fence + [], Fence);
    assert body + Fence + [] == body + (Fence + []);
    ReplaceAllLeftmost(body, Fence, [], "");
    assert body + Fence + [] == body + Fence;
    assert body + "" + [] == body;
  }

  // The three wrappers, around a fence-free body framed by line feeds

  lemma FencedHtml(body: string)
    requires body != [] && body[|body| - 1] == '\n' && !Occurs(body, Fence)
    ensures StripFences(HtmlFence + body + Fence) == body
  {
    var s := HtmlFence + body + Fence;
    calc {
      StripFences(s);
      ReplaceAll(ReplaceFirst(ReplaceFirst(s, HtmlFence, ""), JsonFence, ""), Fence, "");
      { assert s == HtmlFence + (body + Fence);
        ReplaceFirstAtStart(HtmlFence, body + Fence, "");
        assert "" + (body + Fence) == body + Fence; }
      ReplaceAll(ReplaceFirst(body + Fence, JsonFence, ""), Fence, "");
      { KeepsClosingFence(body, JsonFence); }
      ReplaceAll(body + Fence, Fence, "");
      { DropsClosingFence(body); }
      body;
    }
  }

  lemma FencedJson(body: string)
    requires body != [] && body[|body| - 1] == '\n' && !Occurs(body, Fence)
    ensures StripFences(JsonFence + body + Fence) == body
  {
    var s := JsonFence + body + Fence;
    var jb := "json" + body;
    calc {
      StripFences(s);
      ReplaceAll(ReplaceFirst(ReplaceFirst(s, HtmlFence, ""), JsonFence, ""), Fence, "");
      { assert s == [] + Fence + (jb + Fence);
        assert (jb + Fence)[0] == 'j';
        PassesBareFence([], jb + Fence, HtmlFence);
        TickFreeHasNoFence("json");
        NoFenceAcrossSeam("json", body);
        assert jb[|jb| - 1] == '\n';
        KeepsClosingFence(jb, HtmlFence); }
      ReplaceAll(ReplaceFirst(s, JsonFence, ""), Fence, "");
      { assert s == JsonFence + (body + Fence);
        ReplaceFirstAtStart(JsonFence, body + Fence, "");
        assert "" + (body + Fence) == body + Fence; }
      ReplaceAll(body + Fence, Fence, "");
      { DropsClosingFence(body); }
      body;
    }
  }

  lemma FencedBare(body: string)
    requires body != [] && body[0] == '\n' && body[|body| - 1] == '\n' && !Occurs(body, Fence)
    ensures StripFences(Fence + body + Fence) == body
  {
    var s := Fence + body + Fence;
    var t := body + Fence;
    assert s == [] + Fence + t;
    calc {
      StripFences(s);
      ReplaceAll(ReplaceFirst(ReplaceFirst(s, HtmlFence, ""), JsonFence, ""), Fence, "");
      { PassesBareFence([], t, HtmlFence); KeepsClosingFence(body, HtmlFence); }
      ReplaceAll(ReplaceFirst(s, JsonFence, ""), Fence, "");
      { PassesBareFence([], t, JsonFence); KeepsClosingFence(body, JsonFence); }
      ReplaceAll(s, Fence, "");
      { assert Fence <= s && s[3..] == t; assert "" + ReplaceAll(t, Fence, "") == ReplaceAll(t, Fence, ""); }
      ReplaceAll(t, Fence, "");
      { DropsClosingFence(body); }
      body;
    }
  }

  /** An answer wrapped as "```" + tag + LF + x + LF + "```", for the tags
      "", "html" and "json", reaches the decoder as x with its line feeds
      removed, which is also what x alone becomes; when x is on one line it
      is exactly x. x may hold single or double backticks (inline code) but
      no "```": for x = "```json" under the tag json the wrapped answer
      becomes "json" while x alone becomes "". */
  lemma FencedAnswerNormalises(tag: string, x: string)
    requires tag == "" || tag == "html" || tag == "json"
    requires !Occurs(x, Fence)
    ensures Normalise(Fence + tag + "\n" + x + "\n" + Fence) == Without(x, '\n') == Normalise(x)
    ensures '\n' !in x ==> Normalise(Fence + tag + "\n" + x + "\n" + Fence) == x
  {
    FencesAroundAnswer(tag, x);
    LineFeedsAround(x);
    OnlyLineFeedsRemoved(x);
    if '\n' !in x {
      WithoutAbsent(x, '\n');
    }
  }

  /** Steps 1-3 unwrap such an answer to LF + x + LF. */
  lemma FencesAroundAnswer(tag: string, x: string)
    requires tag == "" || tag == "html" || tag == "json"
    requires !Occurs(x, Fence)
    ensures StripFences(Fence + tag + "\n" + x + "\n" + Fence) == "\n" + x + "\n"
  {
    var body := "\n" + x + "\n";
    var s := Fence + tag + "\n" + x + "\n" + Fence;
    FramedHasNoFence(x);
    assert body[0] == '\n' && body[|body| - 1] == '\n';
    if tag == "html" {
      assert s == HtmlFence + body + Fence;
      FencedHtml(body);
    } else if tag == "json" {
      assert s == JsonFence + body + Fence;
      FencedJson(body);
    } else {
      assert s == Fence + body + Fence;
      FencedBare(body);
    }
  }

  /** Hence a fenced answer, on one line or many and with or without inline
      backticks, decodes to the same value as the bare one; a one-line bare
      answer reaches the decoder as it is. */
  lemma FencedAnswerDecodesAsBare<J>(tag: string, x: string, decode: string -> Option<J>)
    requires tag == "" || tag == "html" || tag == "json"
    requires !Occurs(x, Fence)
    ensures ParseCustomJSONString(Some(Fence + tag + "\n" + x + "\n" + Fence), decode)
         == ParseCustomJSONString(Some(x), decode)
    ensures '\n' !in x ==> ParseCustomJSONString(Some(x), decode) == decode(x)
  {
    FencedAnswerNormalises(tag, x);
    if '\n' !in x {
      PlainInputUnchanged(x);
    }
  }

  /** Steps 1-3 on "```html" + X + "```html" + Y: the first marker goes
      whole, the second loses only its backticks. */
  lemma SecondHtmlTag(x: string, y: string)
    requires '`' !in x && '`' !in y
    ensures StripFences(HtmlFence + x + HtmlFence + y) == x + "html" + y
  {
    var tail := "html" + y;
    var rest := x + Fence + tail;
    var s := HtmlFence + x + HtmlFence + y;
    assert s == HtmlFence + rest;
    ReplaceFirstAtStart(HtmlFence, rest, "");
    assert "" + rest == rest;
    var s1 := ReplaceFirst(s, HtmlFence, "");
    assert s1 == rest;
    PassesBareFence(x, tail, JsonFence);
    KeepsTickFree(tail, JsonFence);
    var s2 := ReplaceFirst(s1, JsonFence, "");
    assert s2 == rest;
    StripTail(x, tail);
    assert StripFences(s) == ReplaceAll(s2, Fence, "");
    assert x + tail == x + "html" + y;
  }

  /** Step 3 on X + "```" + T, both backtick-free, gives X + T. */
  lemma StripTail(x: string, tail: string)
    requires '`' !in x && '`' !in tail
    ensures ReplaceAll(x + Fence + tail, Fence, "") == x + tail
  {
    DropsTrailingFence(x, tail);
    assert tail + [] == tail;
    ReplaceAllSkips(tail, [], Fence, "");
  }

  /** Steps 1-3 on "```json" + X + "```json" + Y, likewise. */
  lemma SecondJsonTag(x: string, y: string)
    requires '`' !in x && '`' !in y
    ensures StripFences(JsonFence + x + JsonFence + y) == x + "json" + y
  {
    var tail := "json" + y;
    var rest := x + Fence + tail;
    var s := JsonFence + x + JsonFence + y;
    assert s == JsonFence + rest;
    HtmlPassesJsonMarkers(x, y);
    var s1 := ReplaceFirst(s, HtmlFence, "");
    assert s1 == s;
    ReplaceFirstAtStart(JsonFence, rest, "");
    assert "" + rest == rest;
    var s2 := ReplaceFirst(s1, JsonFence, "");
    assert s2 == rest;
    StripTail(x, tail);
    assert StripFences(s) == ReplaceAll(s2, Fence, "");
    assert x + tail == x + "json" + y;
  }

  /** Step 1 finds no "```html" in "```json" + X + "```json" + Y. */
  lemma HtmlPassesJsonMarkers(x: string, y: string)
    requires '`' !in x && '`' !in y
    ensures ReplaceFirst(JsonFence + x + JsonFence + y, HtmlFence, "") == JsonFence + x + JsonFence + y
  {
    var tail := "json" + y;
    var jx := "json" + x;
    var t := jx + Fence + tail;
    var s := JsonFence + x + JsonFence + y;
    calc {
      ReplaceFirst(s, HtmlFence, "");
      { assert s == [] + Fence + t; }
      ReplaceFirst([] + Fence + t, HtmlFence, "");
      { assert t[0] == 'j'; PassesBareFence([], t, HtmlFence); }
      [] + Fence + ReplaceFirst(t, HtmlFence, "");
      { assert '`' !in jx && tail[0] == 'j';
        PassesBareFence(jx, tail, HtmlFence);
        assert '`' !in tail;
        KeepsTickFree(tail, HtmlFence); }
      [] + Fence + t;
      { assert s == [] + Fence + t; }
      s;
    }
  }

  /** Only the first "```html" or "```json" is removed whole; a later one
      loses its backticks but its tag stays in the text the decoder sees. */
  lemma SecondTagSurvives(tag: string, x: string, y: string)
    requires tag == "html" || tag == "json"
    requires '`' !in x && '\n' !in x && '`' !in y && '\n' !in y
    ensures Normalise(Fence + tag + x + Fence + tag + y) == x + tag + y
  {
    var s := Fence + tag + x + Fence + tag + y;
    var r := x + tag + y;
    calc {
      Normalise(s);
      ReplaceAll(StripFences(s), "\n", "");
      { if tag == "html" {
          assert s == HtmlFence + x + HtmlFence + y;
          SecondHtmlTag(x, y);
        } else {
          assert s == JsonFence + x + JsonFence + y;
          SecondJsonTag(x, y);
        } }
      ReplaceAll(r, "\n", "");
      { ReplaceAllChar(r, '\n'); }
      Without(r, '\n');
      { assert '\n' !in tag; assert '\n' !in r; WithoutAbsent(r, '\n'); }
      r;
    }
  }
}
