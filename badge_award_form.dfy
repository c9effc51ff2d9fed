/**
 * The award form's recipient field: the free text is split on runs of
 * white space and commas, each piece trimmed, empty pieces dropped and an
 * `npub1` prefix stripped; an empty result stops the submission before the
 * award mutation.
 */
module BadgeAwardForm {
  import opened Wrappers
  import opened Strings
  import opened Seqs
  import opened BadgeTypes
  import opened BadgeUtils
  import opened BadgeActions

  // ---------------------------------------------------------------------
  // Splitting on `[\s,]+`

  /** A character of the class `[\s,]`. */
  predicate IsSeparator(c: char) {
    IsWhitespace(c) || c == ','
  }

  predicate NoSeparator(s: string) {
    forall i :: 0 <= i < |s| ==> !IsSeparator(s[i])
  }

  predicate OnlySeparators(s: string) {
    forall i :: 0 <= i < |s| ==> IsSeparator(s[i])
  }

  /** `s` without its leading run of separators. */
  function SkipSeparators(s: string): (r: string)
    ensures |r| <= |s| && r == s[|s| - |r|..]
    ensures s != [] && IsSeparator(s[0]) ==> |r| < |s|
    ensures r == [] || !IsSeparator(r[0])
    ensures OnlySeparators(s[..|s| - |r|])
    decreases |s|
  {
    if s != [] && IsSeparator(s[0]) then
      var r := SkipSeparators(s[1..]);
      OnlySeparatorsCons(s, |s| - |r|);
      r
    else s
  }

  /** A separator followed by a run of separators is a run of separators. */
  lemma OnlySeparatorsCons(s: string, n: nat)
    requires 0 < n <= |s| && IsSeparator(s[0]) && OnlySeparators(s[1..][..n - 1])
    ensures OnlySeparators(s[..n])
  {
    forall i | 0 <= i < n ensures IsSeparator(s[..n][i]) {
      if i > 0 {
        assert s[..n][i] == s[1..][..n - 1][i - 1];
      }
    }
  }

  /**
   * `s.split(/[\s,]+/)`: the pieces between maximal runs of separators, in
   * order; a leading or trailing run yields an empty first or last piece.
   */
  function SplitRuns(s: string): (r: seq<string>)
    ensures |r| >= 1
    ensures forall i :: 0 <= i < |r| ==> NoSeparator(r[i])
    decreases |s|
  {
    if s == [] then [""]
    else if IsSeparator(s[0]) then [""] + SplitRuns(SkipSeparators(s))
    else
      var rest := SplitRuns(s[1..]);
      assert forall i :: 0 < i < |rest| ==> rest[i] == rest[1..][i - 1];
      [[s[0]] + rest[0]] + rest[1..]
  }

  /** A string starting with a non-separator: its first character joins the first piece of the rest. */
  lemma SplitRunsCons(s: string)
    requires s != [] && !IsSeparator(s[0])
    ensures SplitRuns(s) == [[s[0]] + SplitRuns(s[1..])[0]] + SplitRuns(s[1..])[1..]
  {
  }

  /** A non-separator in front of a string joins the first piece of its split. */
  lemma SplitRunsPrepend(c: char, t: string, first: string, more: seq<string>)
    requires !IsSeparator(c) && SplitRuns(t) == [first] + more
    ensures SplitRuns([c] + t) == [[c] + first] + more
  {
    var s := [c] + t;
    assert s[0] == c && s[1..] == t;
    SplitRunsCons(s);
    assert SplitRuns(t)[0] == first && SplitRuns(t)[1..] == more;
  }

  /** One step of `SplitRunsWord`: a non-separator in front of a word that runs on into `rest`. */
  lemma SplitRunsWordStep(w: string, rest: string, pieces: seq<string>)
    requires w != [] && !IsSeparator(w[0])
    requires |pieces| >= 1 && SplitRuns(w[1..] + rest) == [w[1..] + pieces[0]] + pieces[1..]
    ensures SplitRuns(w + rest) == [w + pieces[0]] + pieces[1..]
  {
    var tail := w[1..] + rest;
    SplitRunsPrepend(w[0], tail, w[1..] + pieces[0], pieces[1..]);
    assert [w[0]] + tail == w + rest;
    assert [w[0]] + (w[1..] + pieces[0]) == w + pieces[0];
  }

  /** A piece without separators runs on into the first piece of what follows. */
  lemma {:induction false} SplitRunsWord(w: string, rest: string)
    requires NoSeparator(w)
    ensures SplitRuns(w + rest) == [w + SplitRuns(rest)[0]] + SplitRuns(rest)[1..]
    decreases |w|
  {
    var pieces := SplitRuns(rest);
    if w != [] {
      assert !IsSeparator(w[0]);
      assert NoSeparator(w[1..]) by {
        forall i | 0 <= i < |w[1..]| ensures !IsSeparator(w[1..][i]) {
          assert w[1..][i] == w[i + 1];
        }
      }
      SplitRunsWord(w[1..], rest);
      SplitRunsWordStep(w, rest, pieces);
    } else {
      assert w + rest == rest;
      assert w + pieces[0] == pieces[0];
      assert pieces == [pieces[0]] + pieces[1..];
    }
  }

  /** A run of separators is skipped up to the next non-separator. */
  lemma {:induction false} SkipRun(run: string, rest: string)
    requires OnlySeparators(run)
    requires rest == [] || !IsSeparator(rest[0])
    ensures SkipSeparators(run + rest) == rest
    decreases |run|
  {
    if run != [] {
      var s := run + rest;
      assert s[0] == run[0] && s[1..] == run[1..] + rest;
      SkipRun(run[1..], rest);
    } else {
      assert run + rest == rest;
    }
  }

  /** A non-empty run of separators closes the current piece. */
  lemma SplitRunsRun(run: string, rest: string)
    requires run != [] && OnlySeparators(run)
    requires rest == [] || !IsSeparator(rest[0])
    ensures SplitRuns(run + rest) == [""] + SplitRuns(rest)
  {
    var s := run + rest;
    assert s[0] == run[0];
    SkipRun(run, rest);
  }

  // ---------------------------------------------------------------------
  // Tokens and recipients

  /** Each piece trimmed. */
  function TrimAll(pieces: seq<string>): (r: seq<string>)
    ensures |r| == |pieces|
  {
    seq(|pieces|, i requires 0 <= i < |pieces| => Trim(pieces[i]))
  }

  function NonEmpty(): string -> bool {
    (t: string) => |t| > 0
  }

  /** A piece without separators is its own trim. */
  lemma TrimNoSeparator(s: string)
    requires NoSeparator(s)
    ensures Trim(s) == s
  {
    assert TrimStart(s) == s;
  }

  /** The non-empty trimmed pieces, in input order. */
  function Tokens(text: string): (r: seq<string>)
    ensures r == Filter(SplitRuns(text), NonEmpty())
    ensures forall i :: 0 <= i < |r| ==> |r[i]| > 0 && NoSeparator(r[i])
  {
    var pieces := SplitRuns(text);
    forall i | 0 <= i < |pieces| {
      TrimNoSeparator(pieces[i]);
    }
    assert TrimAll(pieces) == pieces;
    Filter(TrimAll(pieces), NonEmpty())
  }

  /** An `npub1` prefix is removed; any other token is kept as it is. */
  function StripNpub(t: string): (r: string)
    ensures StartsWith(t, "npub1") ==> t == "npub1" + r
    ensures !StartsWith(t, "npub1") ==> r == t
  {
    if StartsWith(t, "npub1") then t[5..] else t
  }

  /** The recipients handed to the award mutation. */
  function Recipients(text: string): (r: seq<string>)
    ensures |r| == |Tokens(text)|
    ensures forall i :: 0 <= i < |r| ==> NoSeparator(r[i])
    ensures forall i :: 0 <= i < |r| ==> r[i] == StripNpub(Tokens(text)[i])
  {
    var tokens := Tokens(text);
    seq(|tokens|, i requires 0 <= i < |tokens| => StripNpub(tokens[i]))
  }

  /** Each gap is a non-empty run of separators. */
  predicate SeparatorRuns(gaps: seq<string>) {
    forall i :: 0 <= i < |gaps| ==> gaps[i] != [] && OnlySeparators(gaps[i])
  }

  /** Non-empty pieces without separators. */
  predicate Words(tokens: seq<string>) {
    forall i :: 0 <= i < |tokens| ==> |tokens[i]| > 0 && NoSeparator(tokens[i])
  }

  /** Tokens with gap `i` between token `i` and token `i + 1`. */
  function Joined(tokens: seq<string>, gaps: seq<string>): string
    requires tokens == [] || |gaps| == |tokens| - 1
    decreases |tokens|
  {
    if |tokens| == 0 then ""
    else if |tokens| == 1 then tokens[0]
    else tokens[0] + gaps[0] + Joined(tokens[1..], gaps[1..])
  }

  /** The piece a trailing run leaves behind: an empty one when the run is there. */
  function TrailPiece(trail: string): seq<string> {
    if trail == [] then [] else [""]
  }

  /** A separator run, possibly empty, on its own splits into two empty pieces, or one. */
  lemma SplitRunsOfRun(run: string)
    requires OnlySeparators(run)
    ensures SplitRuns(run) == [""] + TrailPiece(run)
  {
    if run != [] {
      SplitRunsRun(run, "");
      assert run + "" == run;
    }
  }

  /** A word followed by an optional trailing run. */
  lemma SplitRunsLastWord(w: string, trail: string)
    requires NoSeparator(w) && OnlySeparators(trail)
    ensures SplitRuns(w + trail) == [w] + TrailPiece(trail)
  {
    if trail == [] {
      SplitRunsSingleWord(w);
      assert w + trail == w;
    } else {
      SplitRunsOfRun(trail);
      SplitRunsWordThenRun(w, trail, [""]);
    }
  }

  /**
   * Splitting tokens joined by separator runs, followed by an optional
   * trailing run, gives the tokens back in order, then the trailing piece.
   */
  lemma {:induction false} SplitRunsJoined(tokens: seq<string>, gaps: seq<string>, trail: string)
    requires tokens != [] && |gaps| == |tokens| - 1
    requires Words(tokens) && SeparatorRuns(gaps) && OnlySeparators(trail)
    ensures SplitRuns(Joined(tokens, gaps) + trail) == tokens + TrailPiece(trail)
    decreases |tokens|
  {
    var w := tokens[0];
    if |tokens| == 1 {
      SplitRunsLastWord(w, trail);
      assert tokens == [w];
    } else {
      var tail, more := tokens[1..], gaps[1..];
      assert forall i :: 0 <= i < |tail| ==> tail[i] == tokens[i + 1];
      assert forall i :: 0 <= i < |more| ==> more[i] == gaps[i + 1];
      var rest := Joined(tail, more) + trail;
      SplitRunsJoined(tail, more, trail);
      JoinedStartsWithFirst(tail, more);
      assert rest[0] == tail[0][0];
      SplitRunsRun(gaps[0], rest);
      assert SplitRuns(gaps[0] + rest) == [""] + (tail + TrailPiece(trail));
      SplitRunsWordThenRun(w, gaps[0] + rest, tail + TrailPiece(trail));
      JoinedStep(tokens, gaps, trail);
      assert [w] + (tail + TrailPiece(trail)) == tokens + TrailPiece(trail);
    }
  }

  /** A single piece without separators splits into itself. */
  lemma SplitRunsSingleWord(w: string)
    requires NoSeparator(w)
    ensures SplitRuns(w) == [w]
  {
    SplitRunsWord(w, "");
    assert w + "" == w;
  }

  /** A word followed by text that splits into an empty piece and then `tail`. */
  lemma SplitRunsWordThenRun(w: string, rest: string, tail: seq<string>)
    requires NoSeparator(w)
    requires SplitRuns(rest) == [""] + tail
    ensures SplitRuns(w + rest) == [w] + tail
  {
    SplitRunsWord(w, rest);
    assert w + "" == w;
    assert SplitRuns(rest)[1..] == tail;
  }

  lemma JoinedStep(tokens: seq<string>, gaps: seq<string>, trail: string)
    requires |tokens| >= 2 && |gaps| == |tokens| - 1
    ensures Joined(tokens, gaps) + trail == tokens[0] + (gaps[0] + (Joined(tokens[1..], gaps[1..]) + trail))
  {
    var j := Joined(tokens[1..], gaps[1..]);
    assert Joined(tokens, gaps) == tokens[0] + gaps[0] + j;
    ConcatAssoc(tokens[0], gaps[0], j, trail);
  }

  lemma ConcatAssoc(a: string, b: string, c: string, d: string)
    ensures a + b + c + d == a + (b + (c + d))
  {
  }

  lemma JoinedStartsWithFirst(tokens: seq<string>, gaps: seq<string>)
    requires tokens != [] && |gaps| == |tokens| - 1 && |tokens[0]| > 0
    ensures |Joined(tokens, gaps)| > 0 && Joined(tokens, gaps)[0] == tokens[0][0]
  {
  }

  /** The filter keeps every word. */
  lemma WordsKept(tokens: seq<string>)
    requires Words(tokens)
    ensures Filter(tokens, NonEmpty()) == tokens
  {
    FilterAll(tokens, NonEmpty());
  }

  /** Only empty pieces: the filter keeps nothing. */
  lemma {:induction false} FilterNone(pieces: seq<string>)
    requires forall i :: 0 <= i < |pieces| ==> pieces[i] == ""
    ensures Filter(pieces, NonEmpty()) == []
    decreases |pieces|
  {
    if pieces != [] {
      assert !NonEmpty()(pieces[0]);
      FilterNone(pieces[1..]);
    }
  }

  /**
   * The recipient text round trip: words separated by separator runs, one
   * run per gap, with an optional run before the first and after the last,
   * come back as exactly those words, in their order.
   */
  lemma TokensRoundTrip(lead: string, tokens: seq<string>, gaps: seq<string>, trail: string)
    requires tokens == [] || |gaps| == |tokens| - 1
    requires Words(tokens) && SeparatorRuns(gaps)
    requires OnlySeparators(lead) && OnlySeparators(trail)
    ensures Tokens(lead + Joined(tokens, gaps) + trail) == tokens
  {
    if tokens == [] {
      assert lead + Joined(tokens, gaps) + trail == lead + trail;
      TokensOfRuns(lead, trail);
    } else {
      var body := Joined(tokens, gaps) + trail;
      SplitRunsJoined(tokens, gaps, trail);
      JoinedStartsWithFirst(tokens, gaps);
      SplitRunsAfterLead(lead, body, tokens + TrailPiece(trail));
      assert lead + Joined(tokens, gaps) + trail == lead + body;
      WordsKept(tokens);
      TokensFromPieces(lead + body, LeadPiece(lead), tokens, TrailPiece(trail));
    }
  }

  /** Text that splits into empty pieces around some words has exactly those words as tokens. */
  lemma TokensFromPieces(text: string, lead: seq<string>, tokens: seq<string>, trail: seq<string>)
    requires lead == [] || lead == [""]
    requires trail == [] || trail == [""]
    requires Filter(tokens, NonEmpty()) == tokens
    requires SplitRuns(text) == lead + (tokens + trail)
    ensures Tokens(text) == tokens
  {
    FilterAppend(lead, tokens + trail, NonEmpty());
    FilterAppend(tokens, trail, NonEmpty());
    FilterNone(lead);
    FilterNone(trail);
    assert [] + (tokens + []) == tokens;
  }

  /** The piece a leading run leaves behind: an empty one when the run is there. */
  function LeadPiece(lead: string): seq<string> {
    if lead == [] then [] else [""]
  }

  /** An optional leading run adds one empty piece in front. */
  lemma SplitRunsAfterLead(lead: string, body: string, pieces: seq<string>)
    requires OnlySeparators(lead)
    requires |body| > 0 && !IsSeparator(body[0])
    requires SplitRuns(body) == pieces
    ensures SplitRuns(lead + body) == LeadPiece(lead) + pieces
  {
    if lead == [] {
      assert lead + body == body;
    } else {
      SplitRunsRun(lead, body);
    }
  }

  /** Text made of separators only has no tokens. */
  lemma TokensOfRuns(lead: string, trail: string)
    requires OnlySeparators(lead) && OnlySeparators(trail)
    ensures Tokens(lead + trail) == []
  {
    var run := lead + trail;
    assert OnlySeparators(run) by {
      forall i | 0 <= i < |run| ensures IsSeparator(run[i]) {
        if i >= |lead| {
          assert run[i] == trail[i - |lead|];
        }
      }
    }
    SplitRunsOfRun(run);
    FilterNone([""] + TrailPiece(run));
  }

  predicate HasWord(pieces: seq<string>) {
    exists i :: 0 <= i < |pieces| && |pieces[i]| > 0
  }

  /** A leading empty piece adds no word. */
  lemma HasWordAfterEmpty(pieces: seq<string>)
    ensures HasWord([""] + pieces) <==> HasWord(pieces)
  {
    var all := [""] + pieces;
    if HasWord(all) {
      var i :| 0 <= i < |all| && |all[i]| > 0;
      assert pieces[i - 1] == all[i];
    }
    if HasWord(pieces) {
      var i :| 0 <= i < |pieces| && |pieces[i]| > 0;
      assert all[i + 1] == pieces[i];
    }
  }

  /** Dropping a leading run of separators keeps whether a non-separator is present. */
  lemma OnlySeparatorsSuffix(s: string, front: nat)
    requires front <= |s| && OnlySeparators(s[..front])
    ensures OnlySeparators(s) <==> OnlySeparators(s[front..])
  {
    if !OnlySeparators(s) {
      var j :| 0 <= j < |s| && !IsSeparator(s[j]);
      if j >= front {
        assert s[front..][j - front] == s[j];
      }
    }
    if !OnlySeparators(s[front..]) {
      var k :| 0 <= k < |s[front..]| && !IsSeparator(s[front..][k]);
      assert s[front + k] == s[front..][k];
    }
  }

  /** Some piece is non-empty exactly when the text holds a non-separator. */
  lemma {:induction false} SplitRunsHasWord(s: string)
    ensures HasWord(SplitRuns(s)) <==> !OnlySeparators(s)
    decreases |s|
  {
    if s == [] {
    } else if IsSeparator(s[0]) {
      var r := SkipSeparators(s);
      assert SplitRuns(s) == [""] + SplitRuns(r);
      SplitRunsHasWord(r);
      HasWordAfterEmpty(SplitRuns(r));
      OnlySeparatorsSuffix(s, |s| - |r|);
    } else {
      assert |SplitRuns(s)[0]| > 0;
      assert !IsSeparator(s[0]);
    }
  }

  /** No recipients exactly when the text is only white space and commas. */
  lemma NoRecipientsIffOnlySeparators(text: string)
    ensures Recipients(text) == [] <==> OnlySeparators(text)
  {
    var pieces := SplitRuns(text);
    SplitRunsHasWord(text);
    var tokens := Tokens(text);
    if tokens != [] {
      assert NonEmpty()(tokens[0]);
    }
    if !OnlySeparators(text) {
      assert HasWord(pieces);
      var i :| 0 <= i < |pieces| && |pieces[i]| > 0;
      assert NonEmpty()(pieces[i]);
      assert pieces[i] in tokens;
    }
  }

  /** A bare `npub1` token passes the empty filter and then becomes an empty recipient. */
  lemma BareNpubGivesEmptyRecipient()
    ensures Recipients("npub1") == [""]
  {
    SplitRunsWord("npub1", "");
    assert "npub1" + "" == "npub1";
    assert NonEmpty()("npub1");
  }

  // ---------------------------------------------------------------------
  // Submission

  /** The submission guard: `None` when there is no recipient, which stops before the award mutation. */
  function SubmittedRecipients(text: string): (r: Option<seq<string>>)
    ensures r.None? <==> OnlySeparators(text)
    ensures r.Some? ==> r.value == Recipients(text) && |r.value| > 0
  {
    NoRecipientsIffOnlySeparators(text);
    var pubkeys := Recipients(text);
    if |pubkeys| == 0 then None else Some(pubkeys)
  }

  /** A submitted recipient list never trips the award mutation's missing-input check. */
  lemma SubmittedAwardPassesInputCheck(text: string, definition: Event, author: string, eventId: string, createdAt: int)
    requires SubmittedRecipients(text).Some?
    ensures var r := AwardBadge(Some(definition), SubmittedRecipients(text).value, author, eventId, createdAt);
            r.Published? <==> Truthy(GetTagValue(definition, "d"))
  {
  }
}
