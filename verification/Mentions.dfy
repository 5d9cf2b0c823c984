/**
 The mention scanner and replacer. A mention is written `<@M:id>` or
 `<@M:id|label>`; the trigger, "@" by default, is a parameter. Both
 regular expressions scan from left to right; each scanner below works on what is
 left of the message.
 */
module Mentions {
  import opened Wrappers

  datatype Mention = Mention(idType: char, id: string)

  /** What a regular expression matched at the front: the length covers the whole match. */
  datatype Match = NoMatch | Match(mention: Mention, caption: Option<string>, len: nat)

  // ---------- the two expressions, at the front of the text ----------

  /** How far the greedy class `[^|>]+` runs. */
  function IdLen(s: string): (n: nat)
    ensures n <= |s|
  {
    if s == "" || s[0] == '|' || s[0] == '>' then 0 else 1 + IdLen(s[1..])
  }

  /** How far the greedy class `[^>]+` runs. */
  function LabelLen(s: string): (n: nat)
    ensures n <= |s|
  {
    if s == "" || s[0] == '>' then 0 else 1 + LabelLen(s[1..])
  }

  /** `<`, the trigger, a capital letter and a colon. */
  function Head(trigger: string, idType: char): (h: string)
    ensures |h| == HeadLen(trigger) && h[0] == '<' && h[|trigger| + 1] == idType && h[|trigger| + 2] == ':'
    ensures forall i :: 0 <= i < |trigger| ==> h[i + 1] == trigger[i]
  {
    "<" + trigger + [idType, ':']
  }

  function HeadLen(trigger: string): nat {
    |trigger| + 3
  }

  predicate HeadOk(s: string, trigger: string) {
    |s| >= HeadLen(trigger) && 'A' <= s[|trigger| + 1] <= 'Z' && Head(trigger, s[|trigger| + 1]) <= s
  }

  /** The expression of `extract_mentions`. */
  function MatchMention(s: string, trigger: string): Match {
    var n := HeadLen(trigger);
    if HeadOk(s, trigger) && IdLen(s[n..]) > 0 then
      Match(Mention(s[n - 2], s[n..n + IdLen(s[n..])]), None, n + IdLen(s[n..]))
    else NoMatch
  }

  /** What follows an id: nothing that closes the tag, or an optional label and `>`. */
  datatype Closing = Open | Closed(caption: Option<string>, len: nat)

  function Close(s: string): Closing {
    if s == "" then Open
    else if s[0] == '>' then Closed(None, 1)
    else if s[0] == '|' then
      var n := LabelLen(s[1..]);
      if 0 < n && n + 1 < |s| then Closed(Some(s[1..n + 1]), n + 2) else Open
    else Open
  }

  /** The expression of `replace_mentions`: a mention, an optional label, and the closing `>`. */
  function MatchTag(s: string, trigger: string): Match {
    var m := MatchMention(s, trigger);
    if m.NoMatch? then NoMatch
    else
      match Close(s[m.len..])
      case Open => NoMatch
      case Closed(caption, len) => Match(m.mention, caption, m.len + len)
  }

  // ---------- scanning ----------

  /** `extract_mentions`. */
  function Extract(s: string, trigger: string): seq<Mention>
    decreases |s|
  {
    if s == "" then []
    else
      var m := MatchMention(s, trigger);
      if m.Match? then [m.mention] + Extract(s[m.len..], trigger)
      else Extract(s[1..], trigger)
  }

  /** The replacer: the label, if wanted and present, or else the id. */
  function Shown(m: Match, useLabel: bool): string
    requires m.Match?
  {
    if useLabel && m.caption.Some? then m.caption.value else m.mention.id
  }

  /** `replace_mentions`. */
  function Replace(s: string, trigger: string, useLabel: bool): string
    decreases |s|
  {
    if s == "" then ""
    else
      var m := MatchTag(s, trigger);
      if m.Match? then Shown(m, useLabel) + Replace(s[m.len..], trigger, useLabel)
      else [s[0]] + Replace(s[1..], trigger, useLabel)
  }

  /** The mentions `replace_mentions` substitutes, in order. */
  function Substituted(s: string, trigger: string): seq<Mention>
    decreases |s|
  {
    if s == "" then []
    else
      var m := MatchTag(s, trigger);
      if m.Match? then [m.mention] + Substituted(s[m.len..], trigger)
      else Substituted(s[1..], trigger)
  }

  // ---------- the scanners find what the expressions describe ----------

  ghost predicate Free(s: string, c: char) {
    forall i :: 0 <= i < |s| ==> s[i] != c
  }

  /** `s` is empty or starts where an id must end. */
  predicate EndsId(s: string) {
    s == "" || s[0] == '|' || s[0] == '>'
  }

  predicate EndsLabel(s: string) {
    s == "" || s[0] == '>'
  }

  lemma {:induction false} IdLenMaximal(s: string)
    ensures Free(s[..IdLen(s)], '|') && Free(s[..IdLen(s)], '>')
    ensures EndsId(s[IdLen(s)..])
  {
    if s != "" && s[0] != '|' && s[0] != '>' {
      IdLenMaximal(s[1..]);
      assert s[..IdLen(s)] == [s[0]] + s[1..][..IdLen(s[1..])];
      assert s[IdLen(s)..] == s[1..][IdLen(s[1..])..];
    }
  }

  lemma {:induction false} LabelLenMaximal(s: string)
    ensures Free(s[..LabelLen(s)], '>')
    ensures EndsLabel(s[LabelLen(s)..])
  {
    if s != "" && s[0] != '>' {
      LabelLenMaximal(s[1..]);
      assert s[..LabelLen(s)] == [s[0]] + s[1..][..LabelLen(s[1..])];
      assert s[LabelLen(s)..] == s[1..][LabelLen(s[1..])..];
    }
  }

  lemma {:induction false} IdLenIs(id: string, rest: string)
    requires Free(id, '|') && Free(id, '>') && EndsId(rest)
    ensures IdLen(id + rest) == |id|
  {
    if id != "" {
      assert (id + rest)[1..] == id[1..] + rest;
      IdLenIs(id[1..], rest);
    } else {
      assert id + rest == rest;
    }
  }

  lemma {:induction false} LabelLenIs(caption: string, rest: string)
    requires Free(caption, '>') && EndsLabel(rest)
    ensures LabelLen(caption + rest) == |caption|
  {
    if caption != "" {
      assert (caption + rest)[1..] == caption[1..] + rest;
      LabelLenIs(caption[1..], rest);
    } else {
      assert caption + rest == rest;
    }
  }

  function LabelText(caption: Option<string>): string {
    if caption.Some? then "|" + caption.value else ""
  }

  ghost predicate ValidMention(m: Mention) {
    'A' <= m.idType <= 'Z' && m.id != "" && Free(m.id, '|') && Free(m.id, '>')
  }

  ghost predicate ValidLabel(caption: Option<string>) {
    caption.Some? ==> caption.value != "" && Free(caption.value, '>')
  }

  lemma {:induction false} MentionIs(m: Mention, trigger: string, tail: string)
    requires ValidMention(m) && EndsId(tail)
    ensures var s := Head(trigger, m.idType) + m.id + tail;
      MatchMention(s, trigger) == Match(m, None, HeadLen(trigger) + |m.id|) && s[HeadLen(trigger) + |m.id|..] == tail
  {
    var s, n := Head(trigger, m.idType) + m.id + tail, HeadLen(trigger);
    assert s[n..] == m.id + tail;
    IdLenIs(m.id, tail);
    assert s[n..n + |m.id|] == m.id;
  }

  lemma {:induction false} ThreePieces(s: string, j: nat, k: nat, e: nat)
    requires j <= k <= e <= |s|
    ensures s[j..] == s[j..][..k - j] + s[k..e] + s[e..]
  {
  }

  lemma {:induction false} Pieces(s: string, n: nat, k: nat)
    requires n + k <= |s|
    ensures s == s[..n] + s[n..n + k] + s[n + k..]
  {
  }

  lemma {:induction false} HeadText(s: string, trigger: string)
    requires HeadOk(s, trigger)
    ensures s[..HeadLen(trigger)] == Head(trigger, s[HeadLen(trigger) - 2])
  {
  }

  lemma {:induction false} MentionSound(s: string, trigger: string)
    requires MatchMention(s, trigger).Match?
    ensures var m := MatchMention(s, trigger);
      && m.len <= |s| && m.len == HeadLen(trigger) + |m.mention.id|
      && ValidMention(m.mention) && EndsId(s[m.len..])
      && s == Head(trigger, m.mention.idType) + m.mention.id + s[m.len..]
  {
    var n := HeadLen(trigger);
    IdLenMaximal(s[n..]);
    assert s[n..][IdLen(s[n..])..] == s[n + IdLen(s[n..])..];
    assert s[n..][..IdLen(s[n..])] == s[n..n + IdLen(s[n..])];
    HeadText(s, trigger);
    Pieces(s, n, IdLen(s[n..]));
  }

  lemma {:induction false} CloseIs(caption: Option<string>, rest: string)
    requires ValidLabel(caption)
    ensures var s := LabelText(caption) + ">" + rest;
      Close(s) == Closed(caption, |LabelText(caption)| + 1) && s[|LabelText(caption)| + 1..] == rest
  {
    var s := LabelText(caption) + ">" + rest;
    if caption.Some? {
      assert s[1..] == caption.value + (">" + rest);
      LabelLenIs(caption.value, ">" + rest);
      assert s[1..|caption.value| + 1] == caption.value;
    }
  }

  lemma {:induction false} CloseSound(s: string)
    requires Close(s).Closed?
    ensures var c := Close(s);
      && 0 < c.len <= |s| && s[c.len - 1] == '>' && ValidLabel(c.caption)
      && s == LabelText(c.caption) + ">" + s[c.len..]
  {
    if s[0] == '|' {
      LabelLenMaximal(s[1..]);
      var n := LabelLen(s[1..]);
      assert s[1..][..n] == s[1..n + 1] && s[1..][n..] == s[n + 1..];
      assert s == "|" + s[1..n + 1] + ">" + s[n + 2..];
    } else {
      assert s == "" + ">" + s[1..];
    }
  }

  /** A way to read the front of the text as a tag: head, id, optional label, `>`. */
  ghost predicate IsTag(s: string, trigger: string, mention: Mention, caption: Option<string>, rest: string) {
    && ValidMention(mention) && ValidLabel(caption)
    && s == Head(trigger, mention.idType) + mention.id + (LabelText(caption) + ">" + rest)
  }

  lemma {:induction false} TagMatches(
      s: string, trigger: string, mention: Mention, caption: Option<string>, rest: string)
    requires IsTag(s, trigger, mention, caption, rest)
    ensures var m := MatchTag(s, trigger);
      m.Match? && m.mention == mention && m.caption == caption && m.len <= |s| && rest == s[m.len..]
  {
    var tail, n := LabelText(caption) + ">" + rest, HeadLen(trigger) + |mention.id|;
    MentionIs(mention, trigger, tail);
    CloseIs(caption, rest);
    assert s[n..][|LabelText(caption)| + 1..] == s[n + |LabelText(caption)| + 1..];
  }

  /**
   The expression is unambiguous: backtracking cannot find a reading the greedy
   scan misses, and there is at most one.
   */
  lemma {:induction false} TagUnique(
      s: string, trigger: string, mention: Mention, caption: Option<string>, rest: string)
    ensures IsTag(s, trigger, mention, caption, rest) <==>
      var m := MatchTag(s, trigger);
      m.Match? && m.mention == mention && m.caption == caption && m.len <= |s| && rest == s[m.len..]
  {
    if IsTag(s, trigger, mention, caption, rest) { TagMatches(s, trigger, mention, caption, rest); }
    if MatchTag(s, trigger).Match? { MatchTagSound(s, trigger); }
  }

  lemma {:induction false} MatchTagSound(s: string, trigger: string)
    requires MatchTag(s, trigger).Match?
    ensures var m := MatchTag(s, trigger);
      m.len <= |s| && IsTag(s, trigger, m.mention, m.caption, s[m.len..])
    ensures var m := MatchTag(s, trigger); m.len > HeadLen(trigger) && s[m.len - 1] == '>'
  {
    MentionSound(s, trigger);
    var n := MatchMention(s, trigger).len;
    CloseSound(s[n..]);
    var c := Close(s[n..]);
    assert s[n..][c.len..] == s[n + c.len..];
    assert s[n..][c.len - 1] == s[n + c.len - 1];
  }

  /** A way to read the front of the text as a mention. */
  ghost predicate IsMention(s: string, trigger: string, m: Mention, tail: string) {
    ValidMention(m) && EndsId(tail) && s == Head(trigger, m.idType) + m.id + tail
  }

  ghost predicate TagStarts(s: string, trigger: string) {
    exists m, caption, rest :: IsTag(s, trigger, m, caption, rest)
  }

  ghost predicate MentionStarts(s: string, trigger: string) {
    exists m, tail :: IsMention(s, trigger, m, tail)
  }

  lemma {:induction false} StartsIff(s: string, trigger: string)
    ensures TagStarts(s, trigger) <==> MatchTag(s, trigger).Match?
    ensures MentionStarts(s, trigger) <==> MatchMention(s, trigger).Match?
  {
    if MatchTag(s, trigger).Match? { MatchTagSound(s, trigger); }
    if m, caption, rest :| IsTag(s, trigger, m, caption, rest) { TagMatches(s, trigger, m, caption, rest); }
    if MatchMention(s, trigger).Match? {
      MentionSound(s, trigger);
      var m := MatchMention(s, trigger);
      assert IsMention(s, trigger, m.mention, s[m.len..]);
    }
    if m, tail :| IsMention(s, trigger, m, tail) { MentionIs(m, trigger, tail); }
  }

  // ---------- what the two scanners do on any message ----------

  /** Where a tag starts, it is replaced by its label, or by its id if there is none or it is not wanted. */
  lemma {:induction false} ReplaceAtTag(
      s: string, trigger: string, useLabel: bool, m: Mention, caption: Option<string>, rest: string)
    requires IsTag(s, trigger, m, caption, rest)
    ensures Replace(s, trigger, useLabel) ==
      (if useLabel && caption.Some? then caption.value else m.id) + Replace(rest, trigger, useLabel)
    ensures Substituted(s, trigger) == [m] + Substituted(rest, trigger)
  {
    TagUnique(s, trigger, m, caption, rest);
  }

  lemma {:induction false} ReplaceSkips(s: string, trigger: string, useLabel: bool)
    requires s != "" && !TagStarts(s, trigger)
    ensures Replace(s, trigger, useLabel) == [s[0]] + Replace(s[1..], trigger, useLabel)
    ensures Substituted(s, trigger) == Substituted(s[1..], trigger)
  {
    StartsIff(s, trigger);
  }

  /** Text in which no tag starts is copied. */
  lemma {:induction false} ReplaceNoTag(s: string, trigger: string, useLabel: bool, n: nat)
    requires n <= |s| && forall j :: 0 <= j < n ==> !TagStarts(s[j..], trigger)
    ensures Replace(s, trigger, useLabel) == s[..n] + Replace(s[n..], trigger, useLabel)
    ensures Substituted(s, trigger) == Substituted(s[n..], trigger)
  {
    assert s[0..] == s;
    if n > 0 {
      ReplaceSkips(s, trigger, useLabel);
      forall j | 0 <= j < n - 1 ensures !TagStarts(s[1..][j..], trigger) { assert s[1..][j..] == s[j + 1..]; }
      ReplaceNoTag(s[1..], trigger, useLabel, n - 1);
      assert s[1..][n - 1..] == s[n..];
      assert s[..n] == [s[0]] + s[1..][..n - 1];
    }
  }

  /** Where a mention starts, it is extracted with its whole id. */
  lemma {:induction false} ExtractAtMention(s: string, trigger: string, m: Mention, tail: string)
    requires IsMention(s, trigger, m, tail)
    ensures Extract(s, trigger) == [m] + Extract(tail, trigger)
  {
    MentionIs(m, trigger, tail);
  }

  /** Text in which no mention starts contributes nothing. */
  lemma {:induction false} ExtractNoMention(s: string, trigger: string, n: nat)
    requires n <= |s| && forall j :: 0 <= j < n ==> !MentionStarts(s[j..], trigger)
    ensures Extract(s, trigger) == Extract(s[n..], trigger)
  {
    assert s[0..] == s;
    if n > 0 {
      StartsIff(s, trigger);
      forall j | 0 <= j < n - 1 ensures !MentionStarts(s[1..][j..], trigger) { assert s[1..][j..] == s[j + 1..]; }
      ExtractNoMention(s[1..], trigger, n - 1);
      assert s[1..][n - 1..] == s[n..];
    }
  }

  // ---------- what is replaced was also extracted ----------

  /** No mention reaches across a `>`, unless the trigger contains one. */
  lemma {:induction false} ExtractSplits(a: string, b: string, trigger: string)
    requires Free(trigger, '>')
    requires a != "" ==> a[|a| - 1] == '>'
    ensures Extract(a + b, trigger) == Extract(a, trigger) + Extract(b, trigger)
    decreases |a|
  {
    if a == "" {
      assert a + b == b;
    } else {
      FrontMatchSame(a, b, trigger);
      var n := Advance(a, trigger);
      assert (a + b)[n..] == a[n..] + b;
      ExtractSplits(a[n..], b, trigger);
      ExtractUnfold(a, trigger);
      ExtractUnfold(a + b, trigger);
      Assoc(FirstOf(a, trigger), Extract(a[n..], trigger), Extract(b, trigger));
    }
  }

  /** How far the scanner moves, and what it finds there. */
  function Advance(s: string, trigger: string): (n: nat)
    requires s != ""
    ensures 0 < n <= |s|
  {
    if MatchMention(s, trigger).Match? then MatchMention(s, trigger).len else 1
  }

  function FirstOf(s: string, trigger: string): seq<Mention> {
    if MatchMention(s, trigger).Match? then [MatchMention(s, trigger).mention] else []
  }

  lemma {:induction false} ExtractUnfold(s: string, trigger: string)
    requires s != ""
    ensures Extract(s, trigger) == FirstOf(s, trigger) + Extract(s[Advance(s, trigger)..], trigger)
  {
  }

  lemma {:induction false} FrontMatchSame(a: string, b: string, trigger: string)
    requires Free(trigger, '>') && a != "" && a[|a| - 1] == '>'
    ensures MatchMention(a + b, trigger) == MatchMention(a, trigger)
    ensures MatchMention(a, trigger).Match? ==> MatchMention(a, trigger).len < |a|
  {
    if HeadOk(a + b, trigger) {
      var n := HeadLen(trigger);
      HeadWithin(a, b, trigger);
      assert (a + b)[n..] == a[n..] + b;
      IdLenWithin(a[n..], b);
      assert (a + b)[n..n + IdLen(a[n..])] == a[n..n + IdLen(a[n..])];
    }
  }

  /** A head does not contain the `>` that ends `a`. */
  lemma HeadWithin(a: string, b: string, trigger: string)
    requires Free(trigger, '>') && a != "" && a[|a| - 1] == '>' && HeadOk(a + b, trigger)
    ensures |a| > HeadLen(trigger)
  {
    HeadHasNone(a + b, trigger);
    assert (a + b)[|a| - 1] == '>';
  }

  lemma HeadHasNone(s: string, trigger: string)
    requires Free(trigger, '>') && HeadOk(s, trigger)
    ensures forall p :: 0 <= p < HeadLen(trigger) ==> s[p] != '>'
  {
    forall p | 1 <= p <= |trigger| ensures s[p] != '>' { assert s[p] == trigger[p - 1]; }
  }

  lemma IdLenWithin(a: string, b: string)
    requires a != "" && a[|a| - 1] == '>'
    ensures IdLen(a + b) == IdLen(a) < |a|
  {
    if a[0] != '|' && a[0] != '>' {
      assert (a + b)[1..] == a[1..] + b;
      IdLenWithin(a[1..], b);
    }
  }

  /** If a bar is followed by something and yet nothing closes, no `>` is left. */
  lemma {:induction false} OpenBar(s: string)
    requires Close(s).Open? && |s| > 1 && s[0] == '|' && s[1] != '>'
    ensures Free(s[1..], '>')
  {
    LabelLenMaximal(s[1..]);
    assert s[1..][..LabelLen(s[1..])] == s[1..];
  }

  /** Where a mention does not close, no tag starts anywhere inside it. */
  lemma {:induction false} NoTagInside(s: string, trigger: string, j: nat)
    requires Free(trigger, '>')
    requires MatchMention(s, trigger).Match? && MatchTag(s, trigger).NoMatch?
    requires j < MatchMention(s, trigger).len
    ensures MatchTag(s[j..], trigger).NoMatch?
  {
    var e, n := MatchMention(s, trigger).len, HeadLen(trigger);
    MentionSound(s, trigger);
    if j == 0 {
      assert s[j..] == s;
    } else if HeadOk(s[j..], trigger) {
      if j + n < e {
        InnerIdValid(s, trigger, e, j);
        InnerTail(s, trigger, e, j);
      } else if j + n == e {
        assert s[j..][n..] == s[e..];
      } else {
        InnerOnBar(s, trigger, e, j);
      }
    }
  }

  /** An inner mention ends where the outer one does. */
  lemma {:induction false} InnerTail(s: string, trigger: string, e: nat, j: nat)
    requires j + HeadLen(trigger) < e <= |s| && HeadOk(s[j..], trigger)
    requires var inner := s[j + HeadLen(trigger)..e]; Free(inner, '|') && Free(inner, '>')
    requires Close(s[e..]).Open? && EndsId(s[e..])
    ensures MatchTag(s[j..], trigger).NoMatch?
  {
    var k := j + HeadLen(trigger);
    InnerReads(s, trigger, e, j);
    OpenNoTag(s[j..], trigger, Mention(s[k - 2], s[k..e]), s[e..]);
  }

  lemma {:induction false} InnerReads(s: string, trigger: string, e: nat, j: nat)
    requires j + HeadLen(trigger) < e <= |s| && HeadOk(s[j..], trigger)
    ensures var k := j + HeadLen(trigger);
      'A' <= s[k - 2] <= 'Z' && s[j..] == Head(trigger, s[k - 2]) + s[k..e] + s[e..]
  {
    var n := HeadLen(trigger);
    HeadText(s[j..], trigger);
    assert s[j..][n - 2] == s[j + n - 2];
    ThreePieces(s, j, j + n, e);
  }

  lemma {:induction false} OpenNoTag(w: string, trigger: string, m: Mention, tail: string)
    requires ValidMention(m) && EndsId(tail) && Close(tail).Open?
    requires w == Head(trigger, m.idType) + m.id + tail
    ensures MatchTag(w, trigger).NoMatch?
  {
    MentionIs(m, trigger, tail);
  }

  lemma {:induction false} InnerIdValid(s: string, trigger: string, e: nat, j: nat)
    requires 0 < j && j + HeadLen(trigger) < e <= |s|
    requires MatchMention(s, trigger).Match? && e == MatchMention(s, trigger).len
    ensures var inner := s[j + HeadLen(trigger)..e]; Free(inner, '|') && Free(inner, '>')
    ensures EndsId(s[e..])
  {
    MentionSound(s, trigger);
    var id, inner := MatchMention(s, trigger).mention.id, s[j + HeadLen(trigger)..e];
    forall p | 0 <= p < |inner| ensures inner[p] != '|' && inner[p] != '>' { assert inner[p] == id[j + p]; }
  }

  /** With `|` in the trigger an inner head may contain the bar; then nothing closes either of them. */
  lemma {:induction false} InnerOnBar(s: string, trigger: string, e: nat, j: nat)
    requires Free(trigger, '>')
    requires j < e < j + HeadLen(trigger) <= |s| && HeadOk(s[j..], trigger)
    requires Close(s[e..]).Open? && EndsId(s[e..])
    ensures MatchTag(s[j..], trigger).NoMatch?
  {
    var n, k := HeadLen(trigger), e - j;
    HeadText(s[j..], trigger);
    assert s[j..][..n][k] == s[e] && s[e..][0] == s[e];
    assert k <= |trigger|;
    assert s[j..][..n][k + 1] == s[e + 1] && s[e..][1] == s[e + 1];
    OpenBar(s[e..]);
    forall p | e < p < |s| ensures s[p] != '>' { assert s[e..][1..][p - e - 1] == s[p]; }
    if MatchTag(s[j..], trigger).Match? { MatchTagSound(s[j..], trigger); }
  }

  lemma {:induction false} SkipUnmatched(s: string, trigger: string, n: nat)
    requires n <= |s|
    requires forall j :: 0 <= j < n ==> MatchTag(s[j..], trigger).NoMatch?
    ensures Substituted(s, trigger) == Substituted(s[n..], trigger)
  {
    assert s[0..] == s;
    if n > 0 {
      forall j | 0 <= j < n - 1 ensures MatchTag(s[1..][j..], trigger).NoMatch? {
        assert s[1..][j..] == s[j + 1..];
      }
      SkipUnmatched(s[1..], trigger, n - 1);
      assert s[1..][n - 1..] == s[n..];
    }
  }

  /** At a tag: what the extractor finds inside the tag starts with the same mention. */
  lemma {:induction false} ExtractAtTag(s: string, trigger: string) returns (inner: seq<Mention>)
    requires Free(trigger, '>') && MatchTag(s, trigger).Match?
    ensures var t := MatchTag(s, trigger);
      t.len <= |s| && Extract(s, trigger) == [t.mention] + (inner + Extract(s[t.len..], trigger))
  {
    var n := MatchTag(s, trigger).len;
    TagFront(s, trigger);
    inner := ExtractFirst(s[..n], trigger);
    ExtractSplits(s[..n], s[n..], trigger);
    assert s[..n] + s[n..] == s;
    Assoc([MatchTag(s, trigger).mention], inner, Extract(s[n..], trigger));
  }

  /** The tag's own text starts with the same mention, and ends with `>`. */
  lemma {:induction false} TagFront(s: string, trigger: string)
    requires Free(trigger, '>') && MatchTag(s, trigger).Match?
    ensures var n := MatchTag(s, trigger).len;
      && 0 < n <= |s| && s[n - 1] == '>'
      && MatchMention(s[..n], trigger).Match? && MatchMention(s[..n], trigger).len <= n
      && MatchMention(s[..n], trigger).mention == MatchTag(s, trigger).mention
  {
    var n := MatchTag(s, trigger).len;
    MatchTagSound(s, trigger);
    assert s == s[..n] + s[n..];
    FrontMatchSame(s[..n], s[n..], trigger);
  }

  lemma {:induction false} ExtractFirst(a: string, trigger: string) returns (inner: seq<Mention>)
    requires MatchMention(a, trigger).Match? && MatchMention(a, trigger).len <= |a|
    ensures Extract(a, trigger) == [MatchMention(a, trigger).mention] + inner
  {
    inner := Extract(a[MatchMention(a, trigger).len..], trigger);
  }

  /**
   Every mention that is replaced is also extracted, with the same type and id and
   in the same order, for any message, when the trigger contains no `>`.
   */
  lemma {:induction false} SubstitutedWithinExtracted(s: string, trigger: string)
    requires Free(trigger, '>')
    ensures IsSubsequence(Substituted(s, trigger), Extract(s, trigger))
    decreases |s|
  {
    if s != "" {
      var m, t := MatchMention(s, trigger), MatchTag(s, trigger);
      if t.Match? {
        var inner := ExtractAtTag(s, trigger);
        var rest := s[t.len..];
        SubstitutedWithinExtracted(rest, trigger);
        SubsequencePrepend(Substituted(rest, trigger), inner, Extract(rest, trigger));
        SubsequenceCons(t.mention, Substituted(rest, trigger), inner + Extract(rest, trigger));
      } else if m.Match? {
        MentionSound(s, trigger);
        forall j | 0 <= j < m.len ensures MatchTag(s[j..], trigger).NoMatch? { NoTagInside(s, trigger, j); }
        SkipUnmatched(s, trigger, m.len);
        SubstitutedWithinExtracted(s[m.len..], trigger);
        SubsequencePrepend(Substituted(s[m.len..], trigger), [m.mention], Extract(s[m.len..], trigger));
      } else {
        SubstitutedWithinExtracted(s[1..], trigger);
      }
    }
  }

  // ---------- round trip ----------

  datatype Piece = Plain(text: string) | Tag(mention: Mention, caption: Option<string>)

  function PrintPiece(p: Piece, trigger: string): string {
    match p
    case Plain(text) => text
    case Tag(m, caption) => Head(trigger, m.idType) + m.id + LabelText(caption) + ">"
  }

  function Print(ps: seq<Piece>, trigger: string): string {
    if ps == [] then "" else PrintPiece(ps[0], trigger) + Print(ps[1..], trigger)
  }

  function MentionsOf(ps: seq<Piece>): seq<Mention> {
    if ps == [] then []
    else (if ps[0].Tag? then [ps[0].mention] else []) + MentionsOf(ps[1..])
  }

  /** The text a reader should see. */
  function Visible(ps: seq<Piece>, useLabel: bool): string {
    if ps == [] then ""
    else
      (match ps[0]
       case Plain(text) => text
       case Tag(m, caption) => if useLabel && caption.Some? then caption.value else m.id)
      + Visible(ps[1..], useLabel)
  }

  lemma {:induction false} SkipPlain(text: string, rest: string, trigger: string, useLabel: bool)
    requires Free(text, '<')
    ensures Extract(text + rest, trigger) == Extract(rest, trigger)
    ensures Replace(text + rest, trigger, useLabel) == text + Replace(rest, trigger, useLabel)
    ensures Substituted(text + rest, trigger) == Substituted(rest, trigger)
  {
    if text == "" {
      assert text + rest == rest;
    } else {
      assert (text + rest)[1..] == text[1..] + rest;
      SkipPlain(text[1..], rest, trigger, useLabel);
      assert text + Replace(rest, trigger, useLabel) == [text[0]] + (text[1..] + Replace(rest, trigger, useLabel));
    }
  }

  lemma {:induction false} ExtractStep(m: Mention, trigger: string, tail: string)
    requires ValidMention(m) && EndsId(tail)
    ensures Extract(Head(trigger, m.idType) + m.id + tail, trigger) == [m] + Extract(tail, trigger)
  {
    ExtractAtMention(Head(trigger, m.idType) + m.id + tail, trigger, m, tail);
  }

  lemma {:induction false} ReplaceStep(
      m: Mention, caption: Option<string>, trigger: string, rest: string, useLabel: bool)
    requires ValidMention(m) && ValidLabel(caption)
    ensures var s := Head(trigger, m.idType) + m.id + (LabelText(caption) + ">" + rest);
      && Replace(s, trigger, useLabel) ==
           (if useLabel && caption.Some? then caption.value else m.id) + Replace(rest, trigger, useLabel)
      && Substituted(s, trigger) == [m] + Substituted(rest, trigger)
  {
    var s := Head(trigger, m.idType) + m.id + (LabelText(caption) + ">" + rest);
    ReplaceAtTag(s, trigger, useLabel, m, caption, rest);
  }

  lemma Join4(a: string, b: string, c: string, d: string, e: string)
    ensures a + b + c + d + e == a + b + (c + d + e)
  {
  }

  lemma PrintTagFirst(ps: seq<Piece>, trigger: string)
    requires ps != [] && ps[0].Tag?
    ensures Print(ps, trigger) == Head(trigger, ps[0].mention.idType) + ps[0].mention.id
      + (LabelText(ps[0].caption) + ">" + Print(ps[1..], trigger))
  {
    Join4(Head(trigger, ps[0].mention.idType), ps[0].mention.id, LabelText(ps[0].caption), ">",
          Print(ps[1..], trigger));
  }

  /** No mention starts in the text when `rest` follows it. */
  ghost predicate NoMentionIn(text: string, rest: string, trigger: string) {
    forall j :: 0 <= j < |text| ==> !MentionStarts((text + rest)[j..], trigger)
  }

  ghost predicate NoTagIn(text: string, rest: string, trigger: string) {
    forall j :: 0 <= j < |text| ==> !TagStarts((text + rest)[j..], trigger)
  }

  /** Pieces whose mentions are well-formed, and in whose texts and labels no other mention starts. */
  ghost predicate Extractable(ps: seq<Piece>, trigger: string) {
    ps != [] ==>
      && Extractable(ps[1..], trigger)
      && match ps[0]
         case Plain(text) => NoMentionIn(text, Print(ps[1..], trigger), trigger)
         case Tag(m, caption) =>
           ValidMention(m) && NoMentionIn(LabelText(caption) + ">", Print(ps[1..], trigger), trigger)
  }

  /** Pieces whose mentions and labels are well-formed, and in whose texts no other tag starts. */
  ghost predicate Replaceable(ps: seq<Piece>, trigger: string) {
    ps != [] ==>
      && Replaceable(ps[1..], trigger)
      && match ps[0]
         case Plain(text) => NoTagIn(text, Print(ps[1..], trigger), trigger)
         case Tag(m, caption) => ValidMention(m) && ValidLabel(caption)
  }

  /** Text without `<` meets both conditions, whatever follows. */
  lemma {:induction false} PlainIsQuiet(text: string, rest: string, trigger: string)
    requires Free(text, '<')
    ensures NoMentionIn(text, rest, trigger) && NoTagIn(text, rest, trigger)
  {
    forall j | 0 <= j < |text|
      ensures !MentionStarts((text + rest)[j..], trigger) && !TagStarts((text + rest)[j..], trigger)
    {
      assert (text + rest)[j..][0] == text[j];
      StartsIff((text + rest)[j..], trigger);
    }
  }

  /** Extracting from printed pieces gives the mentions back. */
  lemma {:induction false} ExtractPrint(ps: seq<Piece>, trigger: string)
    requires Extractable(ps, trigger)
    ensures Extract(Print(ps, trigger), trigger) == MentionsOf(ps)
  {
    if ps != [] {
      var rest := Print(ps[1..], trigger);
      ExtractPrint(ps[1..], trigger);
      match ps[0] {
        case Plain(text) =>
          ExtractNoMention(text + rest, trigger, |text|);
          assert (text + rest)[|text|..] == rest;
        case Tag(m, caption) =>
          var tail := LabelText(caption) + ">";
          PrintTagFirst(ps, trigger);
          ExtractStep(m, trigger, tail + rest);
          ExtractNoMention(tail + rest, trigger, |tail|);
          assert (tail + rest)[|tail|..] == rest;
      }
    }
  }

  /** Replacing in printed pieces shows each label, or where there is none (or it is not wanted) the id. */
  lemma {:induction false} ReplacePrint(ps: seq<Piece>, trigger: string, useLabel: bool)
    requires Replaceable(ps, trigger)
    ensures Replace(Print(ps, trigger), trigger, useLabel) == Visible(ps, useLabel)
    ensures Substituted(Print(ps, trigger), trigger) == MentionsOf(ps)
  {
    if ps != [] {
      var rest := Print(ps[1..], trigger);
      ReplacePrint(ps[1..], trigger, useLabel);
      match ps[0] {
        case Plain(text) =>
          ReplaceNoTag(text + rest, trigger, useLabel, |text|);
          assert (text + rest)[|text|..] == rest && (text + rest)[..|text|] == text;
        case Tag(m, caption) =>
          PrintTagFirst(ps, trigger);
          ReplaceStep(m, caption, trigger, rest, useLabel);
      }
    }
  }

  lemma PrintCons(p: Piece, ps: seq<Piece>, trigger: string)
    ensures Print([p] + ps, trigger) == PrintPiece(p, trigger) + Print(ps, trigger)
  {
    assert ([p] + ps)[1..] == ps;
  }

  /** Every message is such a print, so what a reader sees of any message is what its pieces show. */
  lemma {:induction false} EveryMessagePrinted(s: string, trigger: string) returns (ps: seq<Piece>)
    ensures Print(ps, trigger) == s && Replaceable(ps, trigger)
    ensures forall useLabel :: Replace(s, trigger, useLabel) == Visible(ps, useLabel)
    decreases |s|
  {
    ps := [];
    if s != "" {
      var t := MatchTag(s, trigger);
      var piece := if t.Match? then Tag(t.mention, t.caption) else Plain(s[..1]);
      var n := if t.Match? then t.len else 1;
      if t.Match? { MatchTagSound(s, trigger); }
      var rest := EveryMessagePrinted(s[n..], trigger);
      ps := [piece] + rest;
      PrintCons(piece, rest, trigger);
      if t.Match? {
        Join4(Head(trigger, t.mention.idType), t.mention.id, LabelText(t.caption), ">", s[n..]);
      } else {
        StartsIff(s, trigger);
        assert s[..1] + s[1..] == s && s[0..] == s;
      }
      assert ps[1..] == rest;
    }
    forall useLabel ensures Replace(s, trigger, useLabel) == Visible(ps, useLabel) {
      ReplacePrint(ps, trigger, useLabel);
    }
  }

  // ---------- the triggers that break the inclusion ----------

  /** Longer than the trigger, so that no head can reach across it. */
  function Filler(trigger: string): string {
    seq(|trigger| + 1, i => 'z')
  }

  /** After at most a trigger's length of text, a letter, a colon and the filler leave no room for a head. */
  lemma NoHeadBefore(x: string, letter: char, rest: string, trigger: string, j: nat)
    requires |x| <= |trigger| && letter != '<' && j < |x| + 2 + |Filler(trigger)|
    ensures !HeadOk((x + [letter, ':'] + Filler(trigger) + rest)[j..], trigger)
  {
    var s := x + [letter, ':'] + Filler(trigger) + rest;
    forall p | |x| + 2 <= p < |x| + 2 + |Filler(trigger)| ensures s[p] == 'z' {
      assert s[p] == Filler(trigger)[p - |x| - 2];
    }
    assert s[|x|] == letter && s[|x| + 1] == ':';
    var q := j + |trigger| + 1;
    if q + 2 <= |s| { assert s[j..][0] == s[j] && s[j..][|trigger| + 1] == s[q]; }
    assert s[j] == '<' ==> j < |x| && |x| + 1 <= q < |x| + 2 + |Filler(trigger)|;
  }

  lemma {:induction false} SkipHeadless(s: string, trigger: string, n: nat)
    requires n <= |s| && forall j :: 0 <= j < n ==> !HeadOk(s[j..], trigger)
    ensures Extract(s, trigger) == Extract(s[n..], trigger)
    ensures Substituted(s, trigger) == Substituted(s[n..], trigger)
  {
    assert s[0..] == s;
    if n > 0 {
      forall j | 0 <= j < n - 1 ensures !HeadOk(s[1..][j..], trigger) {
        assert s[1..][j..] == s[j + 1..];
      }
      SkipHeadless(s[1..], trigger, n - 1);
      assert s[1..][n - 1..] == s[n..];
    }
  }

  /** What is left of a head, its mention and the closing `>`, once the front of the trigger is gone. */
  function Remnant(x: string, letter: char, trigger: string, rest: string): string {
    x + [letter, ':'] + Filler(trigger) + rest
  }

  lemma SkipRemnant(x: string, letter: char, trigger: string, rest: string)
    requires |x| <= |trigger| && letter != '<'
    ensures Extract(Remnant(x, letter, trigger, rest), trigger) == Extract(rest, trigger)
    ensures Substituted(Remnant(x, letter, trigger, rest), trigger) == Substituted(rest, trigger)
  {
    var s, n := Remnant(x, letter, trigger, rest), |x| + 2 + |Filler(trigger)|;
    forall j | 0 <= j < n ensures !HeadOk(s[j..], trigger) { NoHeadBefore(x, letter, rest, trigger, j); }
    SkipHeadless(s, trigger, n);
    assert s[n..] == rest;
  }

  /** Three heads: the second one is inside the first one's label, which ends at the `>` of that head's trigger. */
  function Crossing(trigger: string): string {
    Head(trigger, 'M') + "a" +
      ("|" + (Head(trigger, 'U') + Filler(trigger) + (Head(trigger, 'V') + Filler(trigger) + ">")))
  }

  /** What the second mention's id runs to: the filler, `<`, and the trigger up to its first `|` or `>`. */
  function LongId(trigger: string): string {
    Filler(trigger) + "<" + trigger[..IdLen(trigger)]
  }

  lemma IdLenInside(s: string)
    requires exists i :: 0 <= i < |s| && s[i] == '>'
    ensures IdLen(s) < |s|
  {
    if s[0] != '|' && s[0] != '>' {
      var i :| 0 <= i < |s| && s[i] == '>';
      assert s[1..][i - 1] == '>';
      IdLenInside(s[1..]);
    }
  }

  lemma LongIdValid(trigger: string)
    requires !Free(trigger, '>')
    ensures ValidMention(Mention('U', LongId(trigger))) && ValidMention(Mention('V', Filler(trigger)))
    ensures EndsId(trigger[IdLen(trigger)..]) && trigger[IdLen(trigger)..] != ""
  {
    IdLenMaximal(trigger);
    IdLenInside(trigger);
    var id, n := LongId(trigger), |Filler(trigger)|;
    forall p | 0 <= p < |id| ensures id[p] != '|' && id[p] != '>' {
      if p > n { assert id[p] == trigger[..IdLen(trigger)][p - n - 1]; }
    }
  }

  lemma {:induction false} SecondExtracted(trigger: string)
    requires !Free(trigger, '>')
    ensures Extract(Head(trigger, 'U') + Filler(trigger) + (Head(trigger, 'V') + Filler(trigger) + ">"), trigger) ==
      [Mention('U', LongId(trigger))]
  {
    var k := IdLen(trigger);
    var tail := Remnant(trigger[k..], 'V', trigger, ">");
    LongIdValid(trigger);
    SecondReads(trigger, Filler(trigger), k);
    ExtractStep(Mention('U', LongId(trigger)), trigger, tail);
    TailExtracted(trigger[k..], trigger);
  }

  lemma {:induction false} TailExtracted(x: string, trigger: string)
    requires |x| <= |trigger|
    ensures Extract(Remnant(x, 'V', trigger, ">"), trigger) == []
  {
    SkipRemnant(x, 'V', trigger, ">");
    SkipPlain(">", "", trigger, true);
  }

  /** Extracting: the second head is intact, and its id runs into the third one. */
  lemma {:induction false} CrossingExtracted(trigger: string)
    requires !Free(trigger, '>')
    ensures Extract(Crossing(trigger), trigger) == [Mention('M', "a"), Mention('U', LongId(trigger))]
  {
    var second := Head(trigger, 'U') + Filler(trigger) + (Head(trigger, 'V') + Filler(trigger) + ">");
    ExtractStep(Mention('M', "a"), trigger, "|" + second);
    SkipPlain("|", second, trigger, true);
    SecondExtracted(trigger);
  }

  lemma SecondReads(trigger: string, z: string, k: nat)
    requires k <= |trigger|
    ensures Head(trigger, 'U') + z + (Head(trigger, 'V') + z + ">") ==
      Head(trigger, 'U') + (z + "<" + trigger[..k]) + (trigger[k..] + ['V', ':'] + z + ">")
  {
    var h := Head(trigger, 'V');
    assert h == "<" + trigger[..k] + (trigger[k..] + ['V', ':']);
    Shift(Head(trigger, 'U'), z, "<" + trigger[..k], trigger[k..] + ['V', ':'], z + ">");
    assert z + ("<" + trigger[..k]) == z + "<" + trigger[..k];
    Assoc(h, z, ">");
    Assoc(trigger[k..] + ['V', ':'], z, ">");
  }

  lemma Shift(a: string, z: string, b: string, c: string, d: string)
    ensures a + z + (b + c + d) == a + (z + b) + (c + d)
  {
  }

  lemma {:induction false} ThirdSubstituted(x: string, trigger: string)
    requires |x| <= |trigger| && !Free(trigger, '>')
    ensures var third := Head(trigger, 'V') + Filler(trigger) + (LabelText(None) + ">" + "");
      Substituted(Remnant(x, 'U', trigger, third), trigger) == [Mention('V', Filler(trigger))]
  {
    var third := Head(trigger, 'V') + Filler(trigger) + (LabelText(None) + ">" + "");
    SkipRemnant(x, 'U', trigger, third);
    LongIdValid(trigger);
    ReplaceStep(Mention('V', Filler(trigger)), None, trigger, "", true);
  }

  lemma {:induction false} FirstSubstituted(trigger: string, caption: string, rest: string)
    requires ValidLabel(Some(caption))
    ensures Substituted(Head(trigger, 'M') + "a" + (LabelText(Some(caption)) + ">" + rest), trigger) ==
      [Mention('M', "a")] + Substituted(rest, trigger)
  {
    ReplaceStep(Mention('M', "a"), Some(caption), trigger, rest, true);
  }

  /** Replacing: the first label ends in the second head, which leaves the third mention whole. */
  lemma {:induction false} CrossingSubstituted(trigger: string)
    requires !Free(trigger, '>')
    ensures Substituted(Crossing(trigger), trigger) == [Mention('M', "a"), Mention('V', Filler(trigger))]
  {
    var k := FirstClose(trigger);
    var third := Head(trigger, 'V') + Filler(trigger) + (LabelText(None) + ">" + "");
    CrossingText(trigger, k, third);
    FirstSubstituted(trigger, "<" + trigger[..k], Remnant(trigger[k + 1..], 'U', trigger, third));
    ThirdSubstituted(trigger[k + 1..], trigger);
  }

  lemma {:induction false} FirstClose(trigger: string) returns (k: nat)
    requires !Free(trigger, '>')
    ensures k < |trigger| && trigger[k] == '>' && ValidLabel(Some("<" + trigger[..k]))
  {
    k := LabelLen(trigger);
    LabelLenMaximal(trigger);
    LabelLenInside(trigger);
  }

  lemma {:induction false} CrossingText(trigger: string, k: nat, third: string)
    requires k < |trigger| && trigger[k] == '>'
    requires third == Head(trigger, 'V') + Filler(trigger) + (LabelText(None) + ">" + "")
    ensures Crossing(trigger) == Head(trigger, 'M') + "a" +
      (LabelText(Some("<" + trigger[..k])) + ">" + Remnant(trigger[k + 1..], 'U', trigger, third))
  {
    assert LabelText(None) + ">" + "" == ">";
    assert trigger == trigger[..k] + ">" + trigger[k + 1..];
    CrossingReads(trigger, Filler(trigger), third, k);
  }

  lemma LabelLenInside(s: string)
    requires exists i :: 0 <= i < |s| && s[i] == '>'
    ensures LabelLen(s) < |s| && s[LabelLen(s)] == '>'
  {
    if s[0] != '>' {
      var i :| 0 <= i < |s| && s[i] == '>';
      assert s[1..][i - 1] == '>';
      LabelLenInside(s[1..]);
    }
  }

  lemma CrossingReads(trigger: string, z: string, third: string, k: nat)
    requires k < |trigger| && trigger == trigger[..k] + ">" + trigger[k + 1..]
    ensures "|" + (Head(trigger, 'U') + z + third) ==
      LabelText(Some("<" + trigger[..k])) + ">" + (trigger[k + 1..] + ['U', ':'] + z + third)
  {
    var front, back := "<" + trigger[..k], trigger[k + 1..] + ['U', ':'];
    assert Head(trigger, 'U') == front + ">" + back;
    Shift3("|", front, ">", back, z, third);
  }

  lemma Shift3(a: string, b: string, c: string, d: string, z: string, e: string)
    ensures a + (b + c + d + z + e) == a + b + c + (d + z + e)
  {
  }

  /**
   The replaced mentions are a subsequence of the extracted ones, for all messages,
   exactly for triggers that contain no `>`.
   */
  lemma {:induction false} InclusionIff(trigger: string)
    ensures (forall s :: IsSubsequence(Substituted(s, trigger), Extract(s, trigger))) <==> Free(trigger, '>')
  {
    if Free(trigger, '>') {
      forall s ensures IsSubsequence(Substituted(s, trigger), Extract(s, trigger)) {
        SubstitutedWithinExtracted(s, trigger);
      }
    } else {
      var m, u, v := Mention('M', "a"), Mention('U', LongId(trigger)), Mention('V', Filler(trigger));
      CrossingSubstituted(trigger);
      CrossingExtracted(trigger);
      NotWithin(m, v, u);
      assert !IsSubsequence(Substituted(Crossing(trigger), trigger), Extract(Crossing(trigger), trigger));
    }
  }

  lemma NotWithin<T>(m: T, v: T, u: T)
    requires v != u && v != m
    ensures !IsSubsequence([m, v], [m, u])
  {
    assert [m, v][1..] == [v] && [m, u][1..] == [u] && [u][1..] == [];
    assert !IsSubsequence([v], [u]);
    assert !IsSubsequence([m, v], [u]);
  }
}
