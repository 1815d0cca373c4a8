/**
 The word counter of `StatsCalculator#word_count`: five textual substitutions
 applied in a fixed order to the raw post body, then a split on whitespace
 runs and a count of the pieces holding a word character. Each substitution
 is Ruby's `gsub` (leftmost match, scanning resumes after the match, the
 replacement is not rescanned) written out for its one pattern.
 */
module Markup {
  import opened Text

  // ---------------------------------------------------------------------------
  // Steps 1 and 3: `gsub(/<[^>]*>/, " ")` and `gsub(/`[^`]*`/, " ")`
  // ---------------------------------------------------------------------------

  /** `gsub(/O[^C]*C/, " ")` for single characters `O` and `C`: every `open`, up to and
      including the next `close`, becomes one space; an `open` with no `close` after it stays. */
  function ReplaceDelimited(s: string, open: char, close: char): (r: string)
    ensures |r| <= |s|
    ensures forall k :: 0 <= k < |r| ==> r[k] == ' ' || r[k] in s
    decreases |s|
  {
    if s == [] then []
    else
      var j := Find(s[1..], close);
      if s[0] == open && j < |s| - 1 then " " + ReplaceDelimited(s[j + 2..], open, close)
      else [s[0]] + ReplaceDelimited(s[1..], open, close)
  }

  /** No `open` in `s` is followed, anywhere later, by a `close`: the pattern has no match. */
  ghost predicate NoDelimited(s: string, open: char, close: char) {
    forall i, j :: 0 <= i < j < |s| && s[i] == open ==> s[j] != close
  }

  /** Text before the first `open` is copied unchanged. */
  lemma {:induction false} ReplaceDelimitedKeeps(a: string, b: string, open: char, close: char)
    requires open !in a
    ensures ReplaceDelimited(a + b, open, close) == a + ReplaceDelimited(b, open, close)
    decreases |a|
  {
    if a != [] {
      assert (a + b)[0] == a[0] && (a + b)[1..] == a[1..] + b;
      ReplaceDelimitedKeeps(a[1..], b, open, close);
      assert a == [a[0]] + a[1..];
    } else {
      assert a + b == b;
    }
  }

  /** A delimited span with no `close` inside becomes a single space. */
  lemma ReplaceDelimitedMatches(body: string, rest: string, open: char, close: char)
    requires close !in body
    ensures ReplaceDelimited([open] + body + [close] + rest, open, close)
         == " " + ReplaceDelimited(rest, open, close)
  {
    var s := [open] + body + [close] + rest;
    assert s[1..] == body + [close] + rest;
    FindAfterPrefix(body, close, rest);
    assert s[|body| + 2..] == rest;
  }

  /** An `open` with no `close` anywhere after it is copied. */
  lemma ReplaceDelimitedUnclosed(r: string, open: char, close: char)
    requires close !in r
    ensures ReplaceDelimited([open] + r, open, close) == [open] + ReplaceDelimited(r, open, close)
  {
    assert ([open] + r)[1..] == r;
    assert Find(r, close) == |r|;
  }

  lemma NoDelimitedCons(c: char, rest: string, open: char, close: char)
    requires NoDelimited(rest, open, close)
    requires c == open ==> close !in rest
    ensures NoDelimited([c] + rest, open, close)
  {
    var r := [c] + rest;
    forall i, j | 0 <= i < j < |r| && r[i] == open ensures r[j] != close {
      assert r[j] == rest[j - 1];
      if i > 0 {
        assert r[i] == rest[i - 1];
      }
    }
  }

  /** After the substitution the pattern no longer matches anywhere. */
  lemma {:induction false} ReplaceDelimitedLeavesNone(s: string, open: char, close: char)
    requires open != ' ' && close != ' '
    ensures NoDelimited(ReplaceDelimited(s, open, close), open, close)
    decreases |s|
  {
    if s != [] {
      var j := Find(s[1..], close);
      if s[0] == open && j < |s| - 1 {
        var rest := ReplaceDelimited(s[j + 2..], open, close);
        ReplaceDelimitedLeavesNone(s[j + 2..], open, close);
        NoDelimitedCons(' ', rest, open, close);
      } else {
        var rest := ReplaceDelimited(s[1..], open, close);
        ReplaceDelimitedLeavesNone(s[1..], open, close);
        if s[0] == open {
          assert close !in s[1..];
          forall i | 0 <= i < |rest| ensures rest[i] != close {
            assert rest[i] == ' ' || rest[i] in s[1..];
          }
        }
        NoDelimitedCons(s[0], rest, open, close);
      }
    }
  }

  /** Where the pattern has no match, the substitution changes nothing. */
  lemma {:induction false} ReplaceDelimitedNoMatch(s: string, open: char, close: char)
    requires NoDelimited(s, open, close)
    ensures ReplaceDelimited(s, open, close) == s
    decreases |s|
  {
    if s != [] {
      var j := Find(s[1..], close);
      assert s[0] == open ==> j == |s| - 1;
      assert NoDelimited(s[1..], open, close) by {
        forall i, k | 0 <= i < k < |s[1..]| && s[1..][i] == open ensures s[1..][k] != close {
          assert s[i + 1] == open;
        }
      }
      ReplaceDelimitedNoMatch(s[1..], open, close);
      assert s == [s[0]] + s[1..];
    }
  }

  /** Applying the substitution a second time changes nothing. */
  lemma ReplaceDelimitedIdempotent(s: string, open: char, close: char)
    requires open != ' ' && close != ' '
    ensures ReplaceDelimited(ReplaceDelimited(s, open, close), open, close)
         == ReplaceDelimited(s, open, close)
  {
    ReplaceDelimitedLeavesNone(s, open, close);
    ReplaceDelimitedNoMatch(ReplaceDelimited(s, open, close), open, close);
  }

  // ---------------------------------------------------------------------------
  // Step 2: `gsub(/```[\s\S]*?```/, " ")`
  // ---------------------------------------------------------------------------

  /** Three backticks start at index `k`. */
  predicate FenceAt(s: string, k: int) {
    0 <= k && k + 3 <= |s| && s[k] == '`' && s[k + 1] == '`' && s[k + 2] == '`'
  }

  /** Index of the first fence in `s` at or after `from`, or `|s|` when there is none. */
  function FindFence(s: string, from: nat): (i: nat)
    requires from <= |s|
    ensures from <= i <= |s|
    ensures i < |s| ==> FenceAt(s, i)
    ensures forall k :: from <= k < i ==> !FenceAt(s, k)
    decreases |s| - from
  {
    if from + 3 > |s| then |s|
    else if FenceAt(s, from) then from
    else FindFence(s, from + 1)
  }

  /** A fence at `k` that the search finds a later fence for: the lazy pattern matches from `k`. */
  predicate FenceOpens(s: string, k: int) {
    FenceAt(s, k) && FindFence(s, k + 3) < |s|
  }

  /** The search succeeds exactly when some later fence exists. */
  lemma FenceOpensMeans(s: string, k: int)
    ensures FenceOpens(s, k) <==> FenceAt(s, k) && exists j :: k + 3 <= j && FenceAt(s, j)
  {
    if FenceOpens(s, k) {
      assert FenceAt(s, FindFence(s, k + 3));
    }
  }

  /** A match starting one character into `s` starts at the same place in `s[1..]`. */
  lemma FenceOpensShift(s: string, k: int)
    requires s != []
    ensures FenceOpens(s[1..], k) ==> FenceOpens(s, k + 1)
  {
    if FenceOpens(s[1..], k) {
      var i := FindFence(s[1..], k + 3);
      assert FenceAt(s[1..], i);
      assert FenceAt(s, i + 1);
      assert FenceAt(s, k + 1);
    }
  }

  /** A fenced block, from a fence to the nearest fence after it (the lazy `*?`), becomes one space. */
  function ReplaceFences(s: string): (r: string)
    ensures |r| <= |s|
    decreases |s|
  {
    if s == [] then []
    else if FenceOpens(s, 0) then
      " " + ReplaceFences(s[FindFence(s, 3) + 3..])
    else [s[0]] + ReplaceFences(s[1..])
  }

  /** Where no match starts at the head, the head character is copied. */
  lemma FencesCopyHead(s: string)
    requires s != [] && !FenceOpens(s, 0)
    ensures ReplaceFences(s) == [s[0]] + ReplaceFences(s[1..])
  {
  }

  /** No match starting in `a` means none starts in its tail either. */
  lemma NoFenceOpensTail(a: string, b: string)
    requires a != []
    requires forall k :: 0 <= k < |a| ==> !FenceOpens(a + b, k)
    ensures forall k :: 0 <= k < |a[1..]| ==> !FenceOpens(a[1..] + b, k)
  {
    var s := a + b;
    assert s[1..] == a[1..] + b;
    forall k | 0 <= k < |a[1..]| ensures !FenceOpens(a[1..] + b, k) {
      FenceOpensShift(s, k);
    }
  }

  /** Text in which no match starts is copied unchanged: stray backticks, and fences that no
      later fence closes, stay as they are. */
  lemma {:induction false} ReplaceFencesKeeps(a: string, b: string)
    requires forall k :: 0 <= k < |a| ==> !FenceOpens(a + b, k)
    ensures ReplaceFences(a + b) == a + ReplaceFences(b)
    decreases |a|
  {
    if a != [] {
      var s := a + b;
      assert s[0] == a[0] && s[1..] == a[1..] + b;
      FencesCopyHead(s);
      NoFenceOpensTail(a, b);
      ReplaceFencesKeeps(a[1..], b);
      assert a == [a[0]] + a[1..];
    } else {
      assert a + b == b;
    }
  }

  /** Text without a backtick starts no match. */
  lemma NoBacktickNoFence(a: string, b: string)
    requires '`' !in a
    ensures forall k :: 0 <= k < |a| ==> !FenceOpens(a + b, k)
  {
    forall k | 0 <= k < |a| ensures !FenceAt(a + b, k) {
      assert (a + b)[k] == a[k];
    }
  }

  /** Where no match starts anywhere, the substitution changes nothing. */
  lemma ReplaceFencesNoMatch(s: string)
    requires forall k :: 0 <= k < |s| ==> !FenceOpens(s, k)
    ensures ReplaceFences(s) == s
  {
    assert s + [] == s;
    ReplaceFencesKeeps(s, []);
  }

  /** Backtick-free text is copied by the fence step. */
  lemma FencesPassPlain(a: string, r: string)
    requires '`' !in a
    ensures ReplaceFences(a + r) == a + ReplaceFences(r)
  {
    NoBacktickNoFence(a, r);
    ReplaceFencesKeeps(a, r);
  }

  /** A single backtick, not followed by another, opens no block. */
  lemma FencesPassTick(r: string)
    requires r != [] && r[0] != '`'
    ensures ReplaceFences("`" + r) == "`" + ReplaceFences(r)
  {
    var s := "`" + r;
    assert s[1] == r[0];
    assert !FenceAt(s, 0);
    ReplaceFencesKeeps("`", r);
  }

  /** A fence at or after index 3 of "```" + b is a fence of `b`. */
  lemma FenceInTail(b: string, j: int)
    requires 3 <= j
    ensures FenceAt("```" + b, j) ==> FenceAt(b, j - 3)
  {
    var s := "```" + b;
    if FenceAt(s, j) {
      assert s[j] == b[j - 3] && s[j + 1] == b[j - 2] && s[j + 2] == b[j - 1];
    }
  }

  /** A fence that no later fence closes is kept, with everything after it. */
  lemma ReplaceFencesUnclosed(b: string)
    requires forall k :: 0 <= k < |b| ==> !FenceAt(b, k)
    ensures ReplaceFences("```" + b) == "```" + b
  {
    var s := "```" + b;
    forall k | 0 <= k < |s| ensures !FenceOpens(s, k) {
      if FenceAt(s, k) {
        FenceInTail(b, FindFence(s, k + 3));
      }
    }
    ReplaceFencesNoMatch(s);
  }

  /** A block becomes a single space when no fence starts inside its body: the lazy match
      closes at the first fence after the opening one, and single backticks in the body do not
      end it. */
  lemma ReplaceFencesMatches(body: string, rest: string)
    requires forall k :: 0 <= k < |body| ==> !FenceAt(body + "```", k)
    ensures ReplaceFences("```" + body + "```" + rest) == " " + ReplaceFences(rest)
  {
    var s := "```" + body + "```" + rest;
    var t := body + "```";
    assert FenceAt(s, 3 + |body|);
    forall k | 3 <= k < 3 + |body| ensures !FenceAt(s, k) {
      assert s[k] == t[k - 3] && s[k + 1] == t[k - 2] && s[k + 2] == t[k - 1];
      assert !FenceAt(t, k - 3);
    }
    assert FindFence(s, 3) == 3 + |body|;
    assert s[|body| + 6..] == rest;
  }

  /** A fenced block whose body holds inline code is still one block. */
  lemma ReplaceFencesInlineInside()
    ensures ReplaceFences("```\nputs `ls`\n```") == " "
  {
    var body := "\nputs `ls`\n";
    assert "```\nputs `ls`\n```" == "```" + body + "```" + "";
    ReplaceFencesMatches(body, "");
  }

  // ---------------------------------------------------------------------------
  // Step 4: `gsub(/\[([^\]]*)\]\([^)]*\)/, '\1')`
  // ---------------------------------------------------------------------------

  /** The link pattern matches at the head of `s`: a `[`, the first `]` after it, directly a `(`,
      and a `)` somewhere after that. */
  predicate LinkAt(s: string) {
    |s| > 0 && s[0] == '[' &&
    var j := Find(s[1..], ']');
    j + 2 < |s| && s[j + 2] == '(' && j + 3 + Find(s[j + 3..], ')') < |s|
  }

  /** A markdown link `[label](target)` is replaced by its label; the label is not rescanned. */
  function ReplaceLinks(s: string): (r: string)
    ensures |r| <= |s|
    decreases |s|
  {
    if s == [] then []
    else if LinkAt(s) then
      var j := Find(s[1..], ']');
      s[1..j + 1] + ReplaceLinks(s[j + 4 + Find(s[j + 3..], ')')..])
    else [s[0]] + ReplaceLinks(s[1..])
  }

  /** No match starting in `a` means none starts in its tail either. */
  lemma NoLinkAtTail(a: string, b: string)
    requires a != []
    requires forall k :: 0 <= k < |a| ==> !LinkAt(a[k..] + b)
    ensures forall k :: 0 <= k < |a[1..]| ==> !LinkAt(a[1..][k..] + b)
  {
    forall k | 0 <= k < |a[1..]| ensures !LinkAt(a[1..][k..] + b) {
      assert a[1..][k..] == a[k + 1..];
    }
  }

  /** Text in which no match starts is copied unchanged: a `[` that opens no link stays. */
  lemma {:induction false} ReplaceLinksKeeps(a: string, b: string)
    requires forall k :: 0 <= k < |a| ==> !LinkAt(a[k..] + b)
    ensures ReplaceLinks(a + b) == a + ReplaceLinks(b)
    decreases |a|
  {
    if a != [] {
      var s := a + b;
      assert s[0] == a[0] && s[1..] == a[1..] + b;
      assert a[0..] == a;
      assert !LinkAt(s);
      assert ReplaceLinks(s) == [a[0]] + ReplaceLinks(a[1..] + b);
      NoLinkAtTail(a, b);
      ReplaceLinksKeeps(a[1..], b);
      assert a == [a[0]] + a[1..];
    } else {
      assert a + b == b;
    }
  }

  /** Text without `[` starts no match. */
  lemma NoBracketNoLink(a: string, b: string)
    requires '[' !in a
    ensures forall k :: 0 <= k < |a| ==> !LinkAt(a[k..] + b)
  {
    forall k | 0 <= k < |a| ensures !LinkAt(a[k..] + b) {
      assert (a[k..] + b)[0] == a[k];
    }
  }

  /** Where no match starts anywhere, the substitution changes nothing. */
  lemma ReplaceLinksNoMatch(s: string)
    requires forall k :: 0 <= k < |s| ==> !LinkAt(s[k..])
    ensures ReplaceLinks(s) == s
  {
    assert s + [] == s;
    forall k | 0 <= k < |s| ensures !LinkAt(s[k..] + []) {
      assert s[k..] + [] == s[k..];
    }
    ReplaceLinksKeeps(s, []);
  }

  /** Brackets that open no link are kept: a task box, and an index. */
  lemma ReplaceLinksBareBrackets()
    ensures ReplaceLinks("[ ] todo") == "[ ] todo"
    ensures ReplaceLinks("a[1]") == "a[1]"
  {
    var t := "[ ] todo";
    forall k | 0 <= k < |t| ensures !LinkAt(t[k..]) {
      if k == 0 {
        assert t[1..][1] == ']' && t[2] != '(';
      }
    }
    ReplaceLinksNoMatch(t);
    var u := "a[1]";
    forall k | 0 <= k < |u| ensures !LinkAt(u[k..]) {
      if k == 1 {
        assert u[1..][1..][1] == ']' && |u[1..]| == 3;
      }
    }
    ReplaceLinksNoMatch(u);
  }

  /** `[label](target)` with no `]` in the label and no `)` in the target becomes `label`. */
  lemma ReplaceLinksMatches(linkText: string, target: string, rest: string)
    requires ']' !in linkText && ')' !in target
    ensures ReplaceLinks("[" + linkText + "](" + target + ")" + rest) == linkText + ReplaceLinks(rest)
  {
    var s := "[" + linkText + "](" + target + ")" + rest;
    assert s[1..] == linkText + [']'] + ("(" + target + ")" + rest);
    FindAfterPrefix(linkText, ']', "(" + target + ")" + rest);
    var j := |linkText|;
    assert s[j + 2] == '(';
    assert s[j + 3..] == target + [')'] + rest;
    FindAfterPrefix(target, ')', rest);
    assert s[1..j + 1] == linkText;
    assert s[j + 4 + |target|..] == rest;
  }

  /** A link followed by text without `[` becomes its label followed by that text. */
  lemma ReplaceLinksLast(linkText: string, target: string, tail: string)
    requires ']' !in linkText && ')' !in target && '[' !in tail
    ensures ReplaceLinks("[" + linkText + "](" + target + ")" + tail) == linkText + tail
  {
    ReplaceLinksMatches(linkText, target, tail);
    NoBracketNoLink(tail, []);
    ReplaceLinksKeeps(tail, []);
    assert tail + [] == tail;
  }

  lemma BracketThenNoClose(a: string)
    requires ']' !in a
    ensures ']' !in "[" + a
  {
    assert "[" + a == ['['] + a;
  }

  lemma CloseThenNoOpen(c: string)
    requires '[' !in c
    ensures '[' !in "](" + c + ")"
  {
    assert "](" + c + ")" == [']', '('] + c + [')'];
  }

  /** A link whose label opens with `[` leaves that bracket in front of the next link's target. */
  lemma ReplaceLinksNested(a: string, b: string, c: string)
    requires ']' !in a && ')' !in b && '[' !in c && ')' !in c
    ensures ReplaceLinks("[" + ("[" + a) + "](" + b + ")" + ("](" + c + ")")) == "[" + a + "](" + c + ")"
  {
    BracketThenNoClose(a);
    CloseThenNoOpen(c);
    ReplaceLinksLast("[" + a, b, "](" + c + ")");
  }

  /** The substitution is not idempotent: `[[a](b)](c)` becomes `[a](c)`, which a second pass
      turns into `a`. */
  lemma ReplaceLinksNotIdempotent(a: string, b: string, c: string)
    requires ']' !in a && ')' !in b && '[' !in c && ')' !in c
    ensures var once := ReplaceLinks("[" + ("[" + a) + "](" + b + ")" + ("](" + c + ")"));
      once != a && ReplaceLinks(once) == a
  {
    ReplaceLinksNested(a, b, c);
    var once := "[" + a + "](" + c + ")";
    assert |once| > |a|;
    ReplaceLinksMatches(a, c, []);
    assert once + [] == once && a + [] == a;
  }

  // ---------------------------------------------------------------------------
  // Step 5: `gsub(/[#*_~`]/, "")`
  // ---------------------------------------------------------------------------

  predicate IsMark(c: char) {
    c == '#' || c == '*' || c == '_' || c == '~' || c == '`'
  }

  /** Deletes every emphasis, heading and backtick character. */
  function DeleteMarks(s: string): (r: string)
    ensures |r| <= |s|
    ensures forall k :: 0 <= k < |r| ==> !IsMark(r[k]) && r[k] in s
  {
    if s == [] then [] else (if IsMark(s[0]) then [] else [s[0]]) + DeleteMarks(s[1..])
  }

  /** Deleting distributes over concatenation. */
  lemma {:induction false} DeleteMarksAppend(a: string, b: string)
    ensures DeleteMarks(a + b) == DeleteMarks(a) + DeleteMarks(b)
    decreases |a|
  {
    if a != [] {
      var head := if IsMark(a[0]) then [] else [a[0]];
      assert (a + b)[0] == a[0] && (a + b)[1..] == a[1..] + b;
      assert DeleteMarks(a + b) == head + DeleteMarks(a[1..] + b);
      DeleteMarksAppend(a[1..], b);
      assert DeleteMarks(a) == head + DeleteMarks(a[1..]);
    } else {
      assert a + b == b;
    }
  }

  /** Text without marks is left as it is. */
  lemma {:induction false} DeleteMarksKeeps(s: string)
    requires forall k :: 0 <= k < |s| ==> !IsMark(s[k])
    ensures DeleteMarks(s) == s
    decreases |s|
  {
    if s != [] {
      DeleteMarksKeeps(s[1..]);
      assert s == [s[0]] + s[1..];
    }
  }
  /** Plain text in front is kept by the deletion. */
  lemma MarksPassPlain(a: string, r: string)
    requires IsPlain(a)
    ensures DeleteMarks(a + r) == a + DeleteMarks(r)
  {
    DeleteMarksAppend(a, r);
    DeleteMarksKeeps(a);
  }

  /** A leading backtick is deleted. */
  lemma MarksDropTick(r: string)
    ensures DeleteMarks("`" + r) == DeleteMarks(r)
  {
    assert ("`" + r)[1..] == r;
  }


  // ---------------------------------------------------------------------------
  // Counting: `split(/\s+/).count { |w| w.match?(/\w/) }`
  // ---------------------------------------------------------------------------

  /** A piece of a whitespace split: non-empty and free of `\s`. */
  predicate IsToken(t: string) {
    t != [] && forall k :: 0 <= k < |t| ==> !IsSpace(t[k])
  }

  predicate AllSpace(w: string) {
    forall k :: 0 <= k < |w| ==> IsSpace(w[k])
  }

  /** Length of the leading run of non-whitespace characters. */
  function RunLength(s: string): (n: nat)
    ensures n <= |s|
    ensures forall k :: 0 <= k < n ==> !IsSpace(s[k])
    ensures n < |s| ==> IsSpace(s[n])
  {
    if s == [] || IsSpace(s[0]) then 0 else 1 + RunLength(s[1..])
  }

  /** `split(/\s+/)` without its empty pieces: the maximal runs of non-whitespace, in order. */
  function Tokens(s: string): (r: seq<string>)
    ensures forall i :: 0 <= i < |r| ==> IsToken(r[i])
    ensures |r| <= |s|
    decreases |s|
  {
    if s == [] then []
    else if IsSpace(s[0]) then Tokens(s[1..])
    else
      var n := RunLength(s);
      [s[..n]] + Tokens(s[n..])
  }

  /** Leading whitespace produces no token. */
  lemma {:induction false} TokensSkipSpace(w: string, s: string)
    requires AllSpace(w)
    ensures Tokens(w + s) == Tokens(s)
    decreases |w|
  {
    if w != [] {
      assert (w + s)[0] == w[0] && (w + s)[1..] == w[1..] + s;
      TokensSkipSpace(w[1..], s);
    } else {
      assert w + s == s;
    }
  }

  /** A token followed by whitespace (or by nothing) is split off whole. */
  lemma TokensTake(t: string, s: string)
    requires IsToken(t)
    requires s == [] || IsSpace(s[0])
    ensures Tokens(t + s) == [t] + Tokens(s)
  {
    var u := t + s;
    assert RunLength(u) == |t|;
    assert u[..|t|] == t && u[|t|..] == s;
  }

  /** Splitting words joined by single spaces gives back the words. */
  lemma {:induction false} TokensOfJoin(ts: seq<string>)
    requires forall i :: 0 <= i < |ts| ==> IsToken(ts[i])
    ensures Tokens(Join(ts, " ")) == ts
    decreases |ts|
  {
    if |ts| == 1 {
      TokensTake(ts[0], "");
      assert ts[0] + "" == ts[0];
    } else if |ts| > 1 {
      var rest := Join(ts[1..], " ");
      assert forall i :: 0 <= i < |ts[1..]| ==> ts[1..][i] == ts[i + 1];
      TokensOfJoin(ts[1..]);
      assert IsToken(ts[0]);
      assert (" " + rest)[0] == ' ';
      TokensTake(ts[0], " " + rest);
      assert AllSpace(" ");
      TokensSkipSpace(" ", rest);
      assert Join(ts, " ") == ts[0] + (" " + rest);
      assert [ts[0]] + ts[1..] == ts;
    }
  }

  /** The characters of `s` other than whitespace, in order. */
  function NonSpace(s: string): string {
    if s == [] then [] else (if IsSpace(s[0]) then [] else [s[0]]) + NonSpace(s[1..])
  }

  function Concat(ts: seq<string>): string {
    if ts == [] then [] else ts[0] + Concat(ts[1..])
  }

  lemma {:induction false} NonSpaceRun(s: string, n: nat)
    requires n <= |s|
    requires forall k :: 0 <= k < n ==> !IsSpace(s[k])
    ensures NonSpace(s) == s[..n] + NonSpace(s[n..])
    decreases n
  {
    if n > 0 {
      NonSpaceRun(s[1..], n - 1);
      assert s[1..][..n - 1] == s[1..n];
      assert s[1..][n - 1..] == s[n..];
      assert s[..n] == [s[0]] + s[1..n];
    }
  }

  /** The tokens, put back together, are exactly the non-whitespace characters of the text. */
  lemma {:induction false} TokensCoverText(s: string)
    ensures Concat(Tokens(s)) == NonSpace(s)
    decreases |s|
  {
    if s != [] {
      if IsSpace(s[0]) {
        TokensCoverText(s[1..]);
      } else {
        var n := RunLength(s);
        TokensCoverText(s[n..]);
        NonSpaceRun(s, n);
        assert Tokens(s)[1..] == Tokens(s[n..]);
      }
    }
  }

  /** `match?(/\w/)`. */
  function HasWordChar(t: string): (b: bool)
    ensures b <==> exists k :: 0 <= k < |t| && IsWordChar(t[k])
  {
    if t == [] then false
    else if IsWordChar(t[0]) then true
    else
      assert forall k :: 1 <= k < |t| ==> t[k] == t[1..][k - 1];
      HasWordChar(t[1..])
  }

  /** How many of `ts` hold a word character. */
  function CountWordTokens(ts: seq<string>): (n: nat)
    ensures n <= |ts|
    ensures n == |ts| <==> forall i :: 0 <= i < |ts| ==> HasWordChar(ts[i])
    ensures n == 0 <==> forall i :: 0 <= i < |ts| ==> !HasWordChar(ts[i])
  {
    if ts == [] then 0
    else
      assert forall i :: 1 <= i < |ts| ==> ts[i] == ts[1..][i - 1];
      (if HasWordChar(ts[0]) then 1 else 0) + CountWordTokens(ts[1..])
  }

  /** A single piece counts exactly when it holds a word character. */
  lemma CountWordTokensSingle(t: string)
    ensures CountWordTokens([t]) == if HasWordChar(t) then 1 else 0
  {
    assert [t][1..] == [];
  }

  /** Counting splits over concatenation; with `CountWordTokensSingle` this fixes the count of
      every list: one for each piece that holds a word character. */
  lemma {:induction false} CountWordTokensAppend(a: seq<string>, b: seq<string>)
    ensures CountWordTokens(a + b) == CountWordTokens(a) + CountWordTokens(b)
    decreases |a|
  {
    if a == [] {
      assert a + b == b;
    } else {
      assert (a + b)[0] == a[0] && (a + b)[1..] == a[1..] + b;
      CountWordTokensAppend(a[1..], b);
    }
  }

  // ---------------------------------------------------------------------------
  // The whole counter
  // ---------------------------------------------------------------------------

  /** The five substitutions, in the source's order. */
  function StripMarkup(content: string): (r: string)
    ensures |r| <= |content|
  {
    var t1 := ReplaceDelimited(content, '<', '>');
    var t2 := ReplaceFences(t1);
    var t3 := ReplaceDelimited(t2, '`', '`');
    var t4 := ReplaceLinks(t3);
    DeleteMarks(t4)
  }

  /** `word_count(post)` on the post's raw content. */
  function WordCount(content: string): (n: nat)
    ensures n <= |content|
  {
    CountWordTokens(Tokens(StripMarkup(content)))
  }

  /** Plain text: none of the characters any substitution reacts to. */
  predicate IsPlain(s: string) {
    forall k :: 0 <= k < |s| ==> s[k] != '<' && s[k] != '[' && !IsMark(s[k])
  }

  lemma {:induction false} JoinPlain(ts: seq<string>)
    requires forall i :: 0 <= i < |ts| ==> IsPlain(ts[i])
    ensures IsPlain(Join(ts, " "))
    decreases |ts|
  {
    if |ts| > 1 {
      JoinPlain(ts[1..]);
      var rest := Join(ts[1..], " ");
      assert Join(ts, " ") == ts[0] + " " + rest;
      assert IsPlain(ts[0]);
    }
  }

  /** Plain text passes the five substitutions unchanged. */
  lemma StripMarkupPlain(s: string)
    requires IsPlain(s)
    ensures StripMarkup(s) == s
  {
    assert s + [] == s;
    ReplaceDelimitedKeeps(s, [], '<', '>');
    NoBacktickNoFence(s, []);
    ReplaceFencesKeeps(s, []);
    ReplaceDelimitedKeeps(s, [], '`', '`');
    NoBracketNoLink(s, []);
    ReplaceLinksKeeps(s, []);
    DeleteMarksKeeps(s);
  }

  /** Plain pieces joined by spaces count as the pieces that hold a word character. */
  lemma PlainTokensCount(ts: seq<string>)
    requires forall i :: 0 <= i < |ts| ==> IsToken(ts[i]) && IsPlain(ts[i])
    ensures WordCount(Join(ts, " ")) == CountWordTokens(ts)
  {
    var s := Join(ts, " ");
    JoinPlain(ts);
    StripMarkupPlain(s);
    TokensOfJoin(ts);
  }

  /** Plain words, each holding a word character, joined by spaces, count one each. */
  lemma PlainWordsCount(ts: seq<string>)
    requires forall i :: 0 <= i < |ts| ==> IsToken(ts[i]) && IsPlain(ts[i]) && HasWordChar(ts[i])
    ensures WordCount(Join(ts, " ")) == |ts|
  {
    PlainTokensCount(ts);
  }

  /** Three pieces joined by spaces. */
  lemma JoinThree(a: string, b: string, c: string)
    ensures Join([a, b, c], " ") == a + " " + b + " " + c
  {
    var ts := [a, b, c];
    assert ts[1..][1..] == [c];
    assert Join(ts[1..], " ") == b + " " + c;
  }

  /** Three pieces count as the sum of their single counts. */
  lemma CountWordTokensThree(a: string, b: string, c: string)
    ensures CountWordTokens([a, b, c])
         == CountWordTokens([a]) + CountWordTokens([b]) + CountWordTokens([c])
  {
    assert [a, b, c] == [a] + [b] + [c];
    CountWordTokensAppend([a] + [b], [c]);
    CountWordTokensAppend([a], [b]);
  }

  /** "!" is a plain piece without a word character. */
  lemma BangIsPunctuation()
    ensures IsToken("!") && IsPlain("!") && !HasWordChar("!")
  {
    var bang := "!";
    assert bang[0] == '!';
  }

  /** The separators around "!" spell " ! ". */
  lemma SpacedBang(a: string, b: string)
    ensures a + " " + "!" + " " + b == a + " ! " + b
  {
    assert " " + "!" + " " == " ! ";
    assert a + " " + "!" + " " + b == a + (" " + "!" + " ") + b;
  }

  /** A piece of punctuation between two words is not counted: "hello ! world" counts 2. */
  lemma WordCountSkipsPunctuation(w1: string, w2: string)
    requires IsToken(w1) && IsPlain(w1) && HasWordChar(w1)
    requires IsToken(w2) && IsPlain(w2) && HasWordChar(w2)
    ensures WordCount(w1 + " ! " + w2) == 2
  {
    var bang := "!";
    BangIsPunctuation();
    var ts := [w1, bang, w2];
    assert forall i :: 0 <= i < |ts| ==> IsToken(ts[i]) && IsPlain(ts[i]) by {
      forall i | 0 <= i < |ts| ensures IsToken(ts[i]) && IsPlain(ts[i]) {
        if i == 1 { assert ts[i] == bang; }
      }
    }
    JoinThree(w1, bang, w2);
    SpacedBang(w1, w2);
    PlainTokensCount(ts);
    CountWordTokensThree(w1, bang, w2);
    CountWordTokensSingle(w1);
    CountWordTokensSingle(bang);
    CountWordTokensSingle(w2);
  }

  /** n repetitions of "word" count as n words (the test uses 400). */
  lemma WordCountRepeated(n: nat)
    ensures WordCount(Join(seq(n, _ => "word"), " ")) == n
  {
    var ts := seq(n, _ => "word");
    assert HasWordChar("word");
    PlainWordsCount(ts);
  }

  /** The first substitution turns a tag between two stretches of tag-free text into one space. */
  lemma ReplaceTagWithSpace(a: string, tag: string, b: string)
    requires '<' !in a && '<' !in b && '>' !in tag
    ensures ReplaceDelimited(a + ("<" + tag + ">" + b), '<', '>') == a + (" " + b)
  {
    ReplaceDelimitedKeeps(a, ['<'] + tag + ['>'] + b, '<', '>');
    ReplaceDelimitedMatches(tag, b, '<', '>');
    ReplaceDelimitedNoMatch(b, '<', '>');
  }

  /** An HTML tag separates words as a space does. */
  lemma WordCountTagIsSpace(a: string, tag: string, b: string)
    requires '<' !in a && '<' !in b && '>' !in tag
    ensures WordCount(a + ("<" + tag + ">" + b)) == WordCount(a + (" " + b))
  {
    ReplaceTagWithSpace(a, tag, b);
    assert '<' !in a + (" " + b);
    ReplaceDelimitedNoMatch(a + (" " + b), '<', '>');
  }

  /** A markdown link counts as the words of its label. */
  lemma WordCountLinkIsLabel(a: string, linkText: string, target: string, b: string)
    requires '<' !in a && '`' !in a && '[' !in a
    requires '<' !in linkText && '`' !in linkText && '[' !in linkText && ']' !in linkText
    requires '<' !in target && '`' !in target && ')' !in target
    requires '<' !in b && '`' !in b
    ensures WordCount(a + ("[" + linkText + "](" + target + ")" + b)) == WordCount(a + (linkText + b))
  {
    var s := a + ("[" + linkText + "](" + target + ")" + b);
    var p := a + (linkText + b);
    assert '<' !in s && '`' !in s;
    assert '<' !in p && '`' !in p;
    KeepsWithoutOpeners(s);
    KeepsWithoutOpeners(p);
    NoBracketNoLink(a, "[" + linkText + "](" + target + ")" + b);
    ReplaceLinksKeeps(a, "[" + linkText + "](" + target + ")" + b);
    ReplaceLinksMatches(linkText, target, b);
    NoBracketNoLink(a, linkText + b);
    ReplaceLinksKeeps(a, linkText + b);
    NoBracketNoLink(linkText, b);
    ReplaceLinksKeeps(linkText, b);
  }

  /** Text with neither `<` nor a backtick passes the first three substitutions unchanged. */
  lemma KeepsWithoutOpeners(s: string)
    requires '<' !in s && '`' !in s
    ensures ReplaceDelimited(ReplaceFences(ReplaceDelimited(s, '<', '>')), '`', '`') == s
  {
    assert s + [] == s;
    ReplaceDelimitedKeeps(s, [], '<', '>');
    NoBacktickNoFence(s, []);
    ReplaceFencesKeeps(s, []);
    ReplaceDelimitedKeeps(s, [], '`', '`');
  }

  // ---------------------------------------------------------------------------
  // Backticks that close nothing: "x ` y `z` w"
  // ---------------------------------------------------------------------------

  /** "x ` y `z` w" grouped from the right, the shape the step lemmas below work on. */
  function StrayTicks(x: string, y: string, z: string, w: string): string {
    (x + " ") + ("`" + ((" " + y + " ") + ("`" + (z + ("`" + (" " + w))))))
  }

  lemma StrayTicksShape(x: string, y: string, z: string, w: string)
    ensures x + " ` " + y + " `" + z + "` " + w == StrayTicks(x, y, z, w)
  {
  }

  lemma StrayTicksTags(x: string, y: string, z: string, w: string)
    requires IsPlain(x) && IsPlain(y) && IsPlain(z) && IsPlain(w)
    ensures ReplaceDelimited(StrayTicks(x, y, z, w), '<', '>') == StrayTicks(x, y, z, w)
  {
    var s := StrayTicks(x, y, z, w);
    assert '<' !in s;
    assert s + [] == s;
    ReplaceDelimitedKeeps(s, [], '<', '>');
  }

  lemma StrayTicksTail(z: string, w: string)
    requires IsPlain(z) && IsPlain(w) && z != []
    ensures ReplaceFences(z + ("`" + (" " + w))) == z + ("`" + (" " + w))
  {
    var p := " " + w;
    assert '`' !in p && '`' !in z;
    FencesPassPlain(p, []);
    assert p + [] == p;
    FencesPassTick(p);
    FencesPassPlain(z, "`" + p);
  }

  lemma StrayTicksHead(x: string, y: string, r: string)
    requires IsPlain(x) && IsPlain(y) && r != [] && r[0] != '`' && ReplaceFences(r) == r
    ensures ReplaceFences((x + " ") + ("`" + ((" " + y + " ") + ("`" + r))))
         == (x + " ") + ("`" + ((" " + y + " ") + ("`" + r)))
  {
    var p := " " + y + " ";
    assert '`' !in p && '`' !in x + " ";
    FencesPassTick(r);
    FencesPassPlain(p, "`" + r);
    FencesPassTick(p + ("`" + r));
    FencesPassPlain(x + " ", "`" + (p + ("`" + r)));
  }

  /** No three backticks stand together, so the fence step changes nothing. */
  lemma StrayTicksFences(x: string, y: string, z: string, w: string)
    requires IsPlain(x) && IsPlain(y) && IsPlain(z) && IsPlain(w) && z != []
    ensures ReplaceFences(StrayTicks(x, y, z, w)) == StrayTicks(x, y, z, w)
  {
    StrayTicksTail(z, w);
    StrayTicksHead(x, y, z + ("`" + (" " + w)));
  }

  /** The first two backticks enclose inline code, which becomes a space; the third has no
      partner and stays. */
  lemma StrayTicksInline(x: string, y: string, z: string, w: string)
    requires IsPlain(x) && IsPlain(y) && IsPlain(z) && IsPlain(w)
    ensures ReplaceDelimited(StrayTicks(x, y, z, w), '`', '`')
         == (x + " ") + (" " + (z + ("`" + (" " + w))))
  {
    var p := " " + w;
    var r := z + ("`" + p);
    var b := " " + y + " ";
    assert '`' !in p && '`' !in z && '`' !in b && '`' !in x + " ";
    assert StrayTicks(x, y, z, w) == (x + " ") + (['`'] + b + ['`'] + r);
    ReplaceDelimitedKeeps(x + " ", ['`'] + b + ['`'] + r, '`', '`');
    ReplaceDelimitedMatches(b, r, '`', '`');
    ReplaceDelimitedKeeps(z, "`" + p, '`', '`');
    ReplaceDelimitedUnclosed(p, '`', '`');
    ReplaceDelimitedKeeps(p, [], '`', '`');
    assert p + [] == p;
  }

  lemma StrayTicksLinks(x: string, z: string, w: string)
    requires IsPlain(x) && IsPlain(z) && IsPlain(w)
    ensures var u := (x + " ") + (" " + (z + ("`" + (" " + w))));
      ReplaceLinks(u) == u
  {
    var u := (x + " ") + (" " + (z + ("`" + (" " + w))));
    assert '[' !in u;
    NoBracketNoLink(u, []);
    ReplaceLinksKeeps(u, []);
    assert u + [] == u;
  }

  /** The leftover backtick is deleted with the other marks. */
  lemma StrayTicksMarks(x: string, z: string, w: string)
    requires IsPlain(x) && IsPlain(z) && IsPlain(w)
    ensures DeleteMarks((x + " ") + (" " + (z + ("`" + (" " + w)))))
         == (x + " ") + (" " + (z + (" " + w)))
  {
    var p := " " + w;
    assert IsPlain(p) && IsPlain(x + " ") && IsPlain(" " + z);
    MarksPassPlain(p, []);
    assert p + [] == p;
    MarksDropTick(p);
    MarksPassPlain(z, "`" + p);
    assert " " + (z + ("`" + p)) == [' '] + (z + ("`" + p));
    MarksPassPlain([' '], z + ("`" + p));
    MarksPassPlain(x + " ", " " + (z + ("`" + p)));
  }

  lemma JoinTwo(z: string, w: string)
    ensures Join([z, w], " ") == z + (" " + w)
  {
    assert [z, w][1..] == [w];
  }

  lemma SkipTwoSpaces(rest: string)
    ensures Tokens("  " + rest) == Tokens(rest) && ("  " + rest)[0] == ' '
  {
    assert AllSpace("  ");
    TokensSkipSpace("  ", rest);
  }

  lemma StrayTicksTokens(x: string, z: string, w: string)
    requires IsToken(x) && IsToken(z) && IsToken(w)
    ensures Tokens((x + " ") + (" " + (z + (" " + w)))) == [x, z, w]
  {
    var rest := z + (" " + w);
    JoinTwo(z, w);
    TokensOfJoin([z, w]);
    SkipTwoSpaces(rest);
    TokensTake(x, "  " + rest);
    assert (x + " ") + (" " + rest) == x + ("  " + rest);
  }

  /** The five substitutions on "x ` y `z` w": the inline code becomes a space and the
      unpartnered backtick is deleted. */
  lemma StrayTicksStrip(x: string, y: string, z: string, w: string)
    requires IsPlain(x) && IsPlain(y) && IsPlain(z) && IsPlain(w) && z != []
    ensures StripMarkup(x + " ` " + y + " `" + z + "` " + w) == (x + " ") + (" " + (z + (" " + w)))
  {
    StrayTicksShape(x, y, z, w);
    StrayTicksTags(x, y, z, w);
    StrayTicksFences(x, y, z, w);
    StrayTicksInline(x, y, z, w);
    StrayTicksLinks(x, z, w);
    StrayTicksMarks(x, z, w);
  }

  /** "x ` y `z` w" counts 3: the word inside the inline code is dropped, the word glued to the
      stray backtick is kept. */
  lemma WordCountStrayBacktick(x: string, y: string, z: string, w: string)
    requires IsToken(x) && IsPlain(x) && HasWordChar(x)
    requires IsPlain(y)
    requires IsToken(z) && IsPlain(z) && HasWordChar(z)
    requires IsToken(w) && IsPlain(w) && HasWordChar(w)
    ensures WordCount(x + " ` " + y + " `" + z + "` " + w) == 3
  {
    StrayTicksStrip(x, y, z, w);
    StrayTicksTokens(x, z, w);
    CountWordTokensThree(x, z, w);
    CountWordTokensSingle(x);
    CountWordTokensSingle(z);
    CountWordTokensSingle(w);
  }
}
