/** The tokenizer for the arguments of `ovs-ofctl` style actions. */
module OfctlStrings {
  import opened Wrappers

  /** How many parentheses are open after `s`: openings counted less closings counted. */
  function Level(s: string): int {
    multiset(s)['('] as int - multiset(s)[')'] as int
  }

  /** The text that `[^,()]*` matches. */
  predicate IsPlain(s: string) {
    ',' !in s && '(' !in s && ')' !in s
  }

  /** `t` is plain text up to `p`, then a parenthesis that closes for the first time where `t` ends. */
  ghost predicate IsBlock(t: string, p: nat) {
    && p < |t| && IsPlain(t[..p]) && t[p] == '('
    && Level(t) == 0
    && forall k :: p < k < |t| ==> Level(t[..k]) > 0
  }

  ghost predicate IsToken(t: string) {
    IsPlain(t) || exists p :: IsBlock(t, p)
  }

  function Join(ts: seq<string>): string {
    if ts == [] then "" else if |ts| == 1 then ts[0] else ts[0] + "," + Join(ts[1..])
  }

  /** What the tokens of `arg` are: `arg` is their comma-join, or that and one trailing comma. An empty
      last token is seen only through its trailing comma. */
  ghost predicate TokenizesTo(arg: string, ts: seq<string>) {
    && (forall t :: t in ts ==> IsToken(t))
    && if ts == [] then arg == ""
       else (arg == Join(ts) && ts[|ts| - 1] != "") || arg == Join(ts) + ","
  }

  // ----- one token at a time -----

  /** The first token of `arg` ends at `n`: there `arg` ends or a comma stands. */
  ghost predicate HeadEnds(arg: string, n: nat) {
    n <= |arg| && IsToken(arg[..n]) && (n == |arg| || arg[n] == ',')
  }

  ghost function Split(arg: string): Option<seq<string>> {
    if arg == "" then Some([])
    else if n: nat :| HeadEnds(arg, n) then
      if n == |arg| then Some([arg])
      else
        var tail := Split(arg[n + 1..]);
        if tail.None? then None else Some([arg[..n]] + tail.value)
    else None
  }

  lemma LevelAppend(a: string, b: string)
    ensures Level(a + b) == Level(a) + Level(b)
  {
  }

  lemma PlainLevel(s: string)
    requires IsPlain(s)
    ensures Level(s) == 0 && forall k :: 0 <= k <= |s| ==> Level(s[..k]) == 0
  {
  }

  /** A token is balanced, never closes more than it opened, and holds no comma outside parentheses. */
  lemma TokenIsBalanced(t: string)
    requires IsToken(t)
    ensures Level(t) == 0
    ensures forall k :: 0 <= k <= |t| ==> Level(t[..k]) >= 0
    ensures forall k :: 0 <= k < |t| && t[k] == ',' ==> Level(t[..k]) > 0
  {
    if IsPlain(t) {
      PlainLevel(t);
    } else {
      var p: nat :| IsBlock(t, p);
      PlainLevel(t[..p]);
      forall k | 0 <= k <= |t|
        ensures Level(t[..k]) >= 0 && (k < |t| && t[k] == ',' ==> Level(t[..k]) > 0)
      {
        if k <= p {
          assert t[..p][..k] == t[..k];
          assert k < p ==> t[k] in t[..p];
        } else if k == |t| {
          assert t[..k] == t;
        }
      }
    }
  }

  lemma OpenAtComma(arg: string, m: nat, n: nat)
    requires m < n <= |arg| && IsToken(arg[..n]) && arg[m] == ','
    ensures Level(arg[..m]) > 0
  {
    TokenIsBalanced(arg[..n]);
    assert arg[..n][..m] == arg[..m] && arg[..n][m] == ',';
  }

  /** No two places end the first token. */
  lemma HeadUnique(arg: string, m: nat, n: nat)
    requires HeadEnds(arg, m) && HeadEnds(arg, n)
    ensures m == n
  {
    TokenIsBalanced(arg[..m]);
    TokenIsBalanced(arg[..n]);
    if m < n {
      OpenAtComma(arg, m, n);
    }
    if n < m {
      OpenAtComma(arg, n, m);
    }
  }

  lemma SplitAtHead(arg: string, n: nat)
    requires HeadEnds(arg, n) && arg != ""
    ensures n == |arg| ==> Split(arg) == Some([arg])
    ensures n < |arg| && Split(arg[n + 1..]).None? ==> Split(arg).None?
    ensures n < |arg| && Split(arg[n + 1..]).Some? ==> Split(arg) == Some([arg[..n]] + Split(arg[n + 1..]).value)
  {
    forall m: nat | HeadEnds(arg, m)
      ensures m == n
    {
      HeadUnique(arg, m, n);
    }
  }

  /** The one-token-at-a-time reading and the comma-join describe the same lists. */
  lemma {:induction false} SplitIffTokenizes(arg: string, ts: seq<string>)
    ensures Split(arg) == Some(ts) <==> TokenizesTo(arg, ts)
    decreases |arg| + |ts|
  {
    if Split(arg) == Some(ts) {
      SplitTokenizes(arg, ts);
    }
    if TokenizesTo(arg, ts) {
      TokenizesSplit(arg, ts);
    }
  }

  lemma HeadOfSplit(arg: string, ts: seq<string>) returns (n: nat)
    requires Split(arg) == Some(ts) && arg != ""
    ensures HeadEnds(arg, n) && ts != [] && ts[0] == arg[..n]
    ensures if n == |arg| then ts == [arg] else Split(arg[n + 1..]) == Some(ts[1..])
  {
    n :| HeadEnds(arg, n);
    SplitAtHead(arg, n);
    hide Split, HeadEnds;
    if n == |arg| {
      assert arg[..n] == arg;
    } else {
      var tail := Split(arg[n + 1..]).value;
      assert ([arg[..n]] + tail)[1..] == tail;
    }
  }

  lemma CutAtComma(arg: string, n: nat, ts: seq<string>)
    requires n < |arg| && arg[n] == ',' && ts != [] && ts[0] == arg[..n]
    ensures arg == ts[0] + "," + arg[n + 1..] && ts == [ts[0]] + ts[1..]
  {
  }

  lemma NoToken()
    ensures TokenizesTo("", []) && Split("") == Some([])
  {
  }

  lemma OneToken(t: string)
    requires HeadEnds(t, |t|) && t != ""
    ensures TokenizesTo(t, [t])
  {
    assert t[..|t|] == t;
  }

  lemma {:induction false} SplitTokenizes(arg: string, ts: seq<string>)
    requires Split(arg) == Some(ts)
    ensures TokenizesTo(arg, ts)
    decreases |arg|
  {
    if arg != "" {
      hide Split, IsToken, TokenizesTo;
      var n := HeadOfSplit(arg, ts);
      if n == |arg| {
        OneToken(arg);
      } else {
        var t, rest, tail := ts[0], arg[n + 1..], ts[1..];
        SplitTokenizes(rest, tail);
        ConsTokenizes(t, rest, tail);
        CutAtComma(arg, n, ts);
      }
    } else {
      NoToken();
    }
  }

  lemma ConsTokenizes(t: string, rest: string, tail: seq<string>)
    requires IsToken(t) && TokenizesTo(rest, tail)
    ensures TokenizesTo(t + "," + rest, [t] + tail)
  {
  }

  lemma {:induction false} TokenizesSplit(arg: string, ts: seq<string>)
    requires TokenizesTo(arg, ts)
    ensures Split(arg) == Some(ts)
    decreases |ts|
  {
    if ts != [] {
      var t, tail := ts[0], ts[1..];
      assert ts == [t] + tail;
      if arg == t && tail == [] {
        assert arg[..|t|] == t && ts == [t];
        assert Join(ts) == t && arg != "";
        SplitAtHead(arg, |t|);
      } else {
        var rest := arg[|t| + 1..];
        TailTokenizes(arg, ts);
        assert arg == t + "," + rest;
        assert arg[..|t|] == t;
        SplitAtHead(arg, |t|);
        TokenizesSplit(rest, tail);
      }
    }
  }

  lemma TailTokenizes(arg: string, ts: seq<string>)
    requires TokenizesTo(arg, ts) && ts != [] && !(|ts| == 1 && arg == ts[0])
    ensures |arg| > |ts[0]| && arg == ts[0] + "," + arg[|ts[0]| + 1..]
    ensures TokenizesTo(arg[|ts[0]| + 1..], ts[1..])
  {
  }

  // ----- what the tokens are worth -----

  lemma {:induction false} JoinLast(ts: seq<string>, t: string)
    ensures Join(ts + [t]) == if ts == [] then t else Join(ts) + "," + t
  {
    if |ts| == 0 {
      assert ts + [t] == [t];
    } else {
      assert (ts + [t])[1..] == ts[1..] + [t];
      JoinLast(ts[1..], t);
      assert |ts| == 1 || Join(ts) == ts[0] + "," + Join(ts[1..]);
    }
  }

  /** Any list of tokens, joined and split, comes back; only an empty last token is lost. So the round
      trip is exact if and only if the list is empty or its last token is not. */
  lemma JoinThenSplit(ts: seq<string>)
    requires forall t :: t in ts ==> IsToken(t)
    ensures Split(Join(ts)) == Some(if ts != [] && ts[|ts| - 1] == "" then ts[..|ts| - 1] else ts)
    ensures Split(Join(ts)) == Some(ts) <==> ts == [] || ts[|ts| - 1] != ""
  {
    if ts == [] || ts[|ts| - 1] != "" {
      TokenizesSplit(Join(ts), ts);
    } else {
      var init := ts[..|ts| - 1];
      assert ts == init + [""];
      JoinLast(init, "");
      assert init != [] ==> Join(ts) == Join(init) + ",";
      TokenizesSplit(Join(ts), init);
    }
  }

  ghost predicate Balanced(s: string) {
    Level(s) == 0 && forall k :: 0 <= k <= |s| ==> Level(s[..k]) >= 0
  }

  lemma JoinBalanced(a: string, b: string)
    requires Balanced(a) && Balanced(b)
    ensures Balanced(a + "," + b)
  {
    var s := a + "," + b;
    forall k | 0 <= k <= |s|
      ensures Level(s[..k]) >= 0 && (k == |s| ==> Level(s[..k]) == 0)
    {
      if k <= |a| {
        assert s[..k] == a[..k];
      } else {
        var j := k - |a| - 1;
        assert s[..k] == a + "," + b[..j];
        LevelAppend(a + ",", b[..j]);
        LevelAppend(a, ",");
        assert j == |b| ==> b[..j] == b;
      }
    }
    assert s[..|s|] == s;
  }

  /** Text that is left open, or closes what it did not open, has no tokens. */
  lemma {:induction false} OnlyBalancedSplits(arg: string)
    requires Split(arg).Some?
    ensures Balanced(arg)
    decreases |arg|
  {
    if arg != "" {
      hide Split, Balanced;
      var ts := Split(arg).value;
      var n := HeadOfSplit(arg, ts);
      TokenBalanced(arg[..n]);
      if n < |arg| {
        OnlyBalancedSplits(arg[n + 1..]);
        JoinBalanced(arg[..n], arg[n + 1..]);
        assert arg == arg[..n] + "," + arg[n + 1..];
      } else {
        assert arg[..n] == arg;
      }
    }
  }

  lemma TokenBalanced(t: string)
    requires IsToken(t)
    ensures Balanced(t)
  {
    TokenIsBalanced(t);
  }

  // ----- the loops -----

  predicate IsMark(c: char) {
    c == ',' || c == '(' || c == ')'
  }

  /** Where the match of `[^,()]*` at the start of `s` ends. */
  method MatchPlain(s: string) returns (n: nat)
    ensures n <= |s| && IsPlain(s[..n]) && (n < |s| ==> IsMark(s[n]))
  {
    n := 0;
    while n < |s| && !IsMark(s[n])
      invariant n <= |s| && IsPlain(s[..n])
    {
      assert s[..n + 1] == s[..n] + [s[n]];
      n := n + 1;
    }
  }

  lemma LevelStep(s: string, k: nat)
    requires k < |s|
    ensures Level(s[..k + 1]) == Level(s[..k]) + if s[k] == '(' then 1 else if s[k] == ')' then -1 else 0
  {
    assert s[..k + 1] == s[..k] + [s[k]];
    LevelAppend(s[..k], [s[k]]);
  }

  /** `_tokenize_paren_block`: cuts where the parentheses open at `pos` are all closed; none if they
      never are, where the source fails on the search that finds nothing. */
  method TokenizeParenBlock(s: string, pos: nat) returns (r: Option<(string, string)>)
    requires pos <= |s|
    ensures r.Some? ==>
              && r.value.0 + r.value.1 == s && pos <= |r.value.0|
              && (if Level(s[..pos]) > 0 then Level(r.value.0) == 0 else r.value.0 == s[..pos])
              && forall k :: pos <= k < |r.value.0| ==> Level(s[..k]) > 0
    ensures r.None? ==> forall k :: pos <= k <= |s| ==> Level(s[..k]) > 0
  {
    hide Level;
    var parenLevel := Level(s[..pos]);
    var cut := pos;
    while parenLevel > 0
      invariant pos <= cut <= |s| && parenLevel == Level(s[..cut])
      invariant forall k :: pos <= k < cut ==> Level(s[..k]) > 0
      invariant Level(s[..pos]) > 0 ==> parenLevel >= 0
      invariant Level(s[..pos]) <= 0 ==> cut == pos
      decreases |s| - cut
    {
      // the search for the next parenthesis
      ghost var start := cut;
      while cut < |s| && s[cut] != '(' && s[cut] != ')'
        invariant start <= cut <= |s| && parenLevel == Level(s[..cut])
        invariant forall k :: pos <= k < cut ==> Level(s[..k]) > 0
      {
        LevelStep(s, cut);
        cut := cut + 1;
      }
      if cut == |s| {
        return None;
      }
      LevelStep(s, cut);
      if s[cut] == '(' {
        parenLevel := parenLevel + 1;
      } else {
        parenLevel := parenLevel - 1;
      }
      cut := cut + 1;
    }
    return Some((s[..cut], s[cut..]));
  }

  lemma PlainAt(s: string, n: nat, k: nat)
    requires k < n <= |s| && IsPlain(s[..n])
    ensures !IsMark(s[k])
  {
  }

  /** Where a first token can end, seen from the first mark. */
  lemma HeadShape(s: string, n: nat, m: nat)
    requires n < |s| && IsPlain(s[..n]) && IsMark(s[n]) && HeadEnds(s, m)
    ensures (s[n] == ',' && m == n)
            || (s[n] == '(' && n < m && Level(s[..m]) == 0 && forall k :: n < k < m ==> Level(s[..k]) > 0)
  {
    var t := s[..m];
    if m <= n {
      if m < n {
        PlainAt(s, n, m);
      }
    } else {
      assert t[n] == s[n] && s[n] in t;
      var p: nat :| IsBlock(t, p);
      if p < n {
        PlainAt(s, n, p);
      }
      if n < p {
        PlainAt(t, p, n);
      }
      forall k | n < k < m
        ensures Level(s[..k]) > 0
      {
        assert t[..k] == s[..k];
      }
    }
  }

  /** A block found at the first mark is a token; text without one at an opening has no tokens. */
  lemma BlockEnds(s: string, n: nat, cut: nat)
    requires n < cut <= |s| && IsPlain(s[..n]) && s[n] == '(' && Level(s[..cut]) == 0
    requires forall k :: n < k < cut ==> Level(s[..k]) > 0
    ensures if cut == |s| || s[cut] == ',' then HeadEnds(s, cut) else Split(s).None?
  {
    if cut == |s| || s[cut] == ',' {
      var t := s[..cut];
      assert t[..n] == s[..n];
      forall k | n < k < cut
        ensures Level(t[..k]) > 0
      {
        assert t[..k] == s[..k];
      }
      assert IsBlock(t, n);
    } else {
      forall m: nat | HeadEnds(s, m)
        ensures false
      {
        HeadShape(s, n, m);
      }
    }
  }

  lemma NeverClosed(s: string, n: nat)
    requires n < |s| && IsPlain(s[..n]) && IsMark(s[n]) && s[n] != ','
    requires s[n] == '(' ==> forall k :: n < k <= |s| ==> Level(s[..k]) > 0
    ensures Split(s).None?
  {
  }

  lemma OpeningLevel(s: string, n: nat)
    requires n < |s| && IsPlain(s[..n]) && s[n] == '('
    ensures Level(s[..n + 1]) == 1
  {
    PlainLevel(s[..n]);
    LevelStep(s, n);
  }

  lemma SplitNothing()
    ensures Split("") == Some([])
  {
  }

  /** One turn of the loop: a token off the front, and the comma after it if there is one. */
  lemma SplitStep(whole: string, token: string, rest: string, before: seq<string>)
    requires whole != "" && HeadEnds(whole, |token|) && token == whole[..|token|]
    requires rest == if |token| < |whole| then whole[|token| + 1..] else ""
    ensures Split(whole).None? <==> Split(rest).None?
    ensures Split(rest).Some? ==> before + Split(whole).value == (before + [token]) + Split(rest).value
  {
    SplitAtHead(whole, |token|);
    SplitNothing();
    hide Split, HeadEnds;
    if |token| == |whole| {
      assert token == whole && [token] + [] == [token];
    }
    if Split(rest).Some? {
      assert Split(whole).value == [token] + Split(rest).value;
    }
  }

  /** `tokenize_ofp_instruction_arg`; none stands for the exception. */
  method Tokenize(arg: string) returns (r: Option<seq<string>>)
    ensures r == Split(arg)
  {
    var rest := arg;
    var result := [];
    assert Split(arg).Some? ==> [] + Split(arg).value == Split(arg).value;
    while rest != ""
      invariant Split(arg) == if Split(rest).None? then None else Some(result + Split(rest).value)
      decreases |rest|
    {
      var n := MatchPlain(rest);
      hide Split, Level;
      if n == |rest| {
        assert rest[..n] == rest;
        SplitAtHead(rest, n);
        return Some(result + [rest]);
      }
      ghost var whole := rest;
      var token;
      if rest[n] == '(' {
        OpeningLevel(rest, n);
        var block := TokenizeParenBlock(rest, n + 1);
        if block.None? {
          NeverClosed(rest, n);
          return None;
        }
        var (thisBlock, after) := block.value;
        assert thisBlock == rest[..|thisBlock|];
        BlockEnds(rest, n, |thisBlock|);
        token, rest := thisBlock, after;
      } else if rest[n] == ',' {
        token, rest := rest[..n], rest[n..];
      } else {
        NeverClosed(rest, n);
        return None;
      }
      if rest != "" && rest[0] != ',' {
        return None;
      }
      assert token == whole[..|token|] && HeadEnds(whole, |token|);
      if rest != "" {
        rest := rest[1..];
      }
      SplitStep(whole, token, rest, result);
      result := result + [token];
    }
    assert result + [] == result;
    return Some(result);
  }
}
