/** The pieces of Python's text handling that the script relies on, stated
    over `string` (a sequence of characters):
    - `str.lower()`, restricted to ASCII letters;
    - the substring test `t in s`;
    - the number of non-overlapping matches a left-to-right scan finds, which
      is what `len(re.findall(...))` returns for a literal pattern;
    - `str.replace(pattern, replacement)`;
    - the line list `readlines()` yields for text whose line endings have
      already been translated to '\n'. */
module Strings {

  /** ASCII case folding of one character; every other character is kept. */
  function LowerChar(c: char): char
  {
    if 'A' <= c <= 'Z' then (c as int + 32) as char else c
  }

  /** `s.lower()` for ASCII text. */
  function Lower(s: string): string
  {
    seq(|s|, i requires 0 <= i < |s| => LowerChar(s[i]))
  }

  lemma {:induction false} LowerConcat(a: string, b: string)
    ensures Lower(a + b) == Lower(a) + Lower(b)
  {
    assert forall i :: 0 <= i < |a + b| ==> Lower(a + b)[i] == (Lower(a) + Lower(b))[i];
  }

  /** `t` occurs in `s` starting at index `i`. */
  predicate OccursAt(s: string, t: string, i: int)
  {
    0 <= i && i + |t| <= |s| && s[i..i + |t|] == t
  }

  /** Python's `t in s`. */
  predicate Contains(s: string, t: string)
  {
    exists i | 0 <= i <= |s| - |t| :: OccursAt(s, t, i)
  }

  /** The matches of a left-to-right scan for `t` that resumes right after
      each match it finds (non-overlapping matches). */
  function Count(s: string, t: string): nat
    requires |t| > 0
    decreases |s|
  {
    if |s| < |t| then 0
    else if s[..|t|] == t then 1 + Count(s[|t|..], t)
    else Count(s[1..], t)
  }

  /** The scan finds something exactly when `t in s`. */
  lemma {:induction false} CountPositiveIff(s: string, t: string)
    requires |t| > 0
    ensures Count(s, t) > 0 <==> Contains(s, t)
    decreases |s|
  {
    if |s| < |t| {
    } else if s[..|t|] == t {
      assert OccursAt(s, t, 0);
    } else {
      CountPositiveIff(s[1..], t);
      if Contains(s[1..], t) {
        var i :| 0 <= i <= |s[1..]| - |t| && OccursAt(s[1..], t, i);
        assert s[1..][i..i + |t|] == s[i + 1..i + 1 + |t|];
        assert OccursAt(s, t, i + 1);
      }
      if Contains(s, t) {
        var i :| 0 <= i <= |s| - |t| && OccursAt(s, t, i);
        assert i != 0;
        assert s[1..][i - 1..i - 1 + |t|] == s[i..i + |t|];
        assert OccursAt(s[1..], t, i - 1);
      }
    }
  }

  /** A match can never straddle the end of `a` when the last character of
      `a` does not occur in `t`, so the matches of `a + b` are those of `a`
      followed by those of `b`. */
  lemma {:induction false} CountConcat(a: string, b: string, t: string)
    requires |t| > 0
    requires a == [] || a[|a| - 1] !in t
    ensures Count(a + b, t) == Count(a, t) + Count(b, t)
    decreases |a|
  {
    if a == [] {
      assert a + b == b;
    } else if |a + b| >= |t| && (a + b)[..|t|] == t {
      assert |t| < |a| by {
        assert forall j :: 0 <= j < |t| ==> t[j] == (a + b)[j];
        assert (a + b)[|a| - 1] == a[|a| - 1];
      }
      assert a[..|t|] == t;
      assert (a + b)[|t|..] == a[|t|..] + b;
      CountConcat(a[|t|..], b, t);
    } else if |a + b| < |t| {
    } else {
      assert (a + b)[1..] == a[1..] + b;
      CountConcat(a[1..], b, t);
      if |a| >= |t| {
        assert a[..|t|] == (a + b)[..|t|];
      }
    }
  }

  /** `s.replace(pattern, replacement)`: each non-overlapping match, found left
      to right, is replaced; an empty pattern matches before every character
      and at the end. */
  function ReplaceAll(s: string, pattern: string, replacement: string): string
    decreases |s|
  {
    if |pattern| == 0 then
      if s == [] then replacement
      else replacement + [s[0]] + ReplaceAll(s[1..], pattern, replacement)
    else if |s| < |pattern| then s
    else if s[..|pattern|] == pattern then
      replacement + ReplaceAll(s[|pattern|..], pattern, replacement)
    else [s[0]] + ReplaceAll(s[1..], pattern, replacement)
  }

  /** Each match the scan finds changes the length by the size difference. */
  lemma {:induction false} ReplaceLength(s: string, pattern: string, replacement: string)
    requires |pattern| > 0
    ensures |ReplaceAll(s, pattern, replacement)| + Count(s, pattern) * |pattern|
        == |s| + Count(s, pattern) * |replacement|
    decreases |s|
  {
    if |s| < |pattern| {
    } else if s[..|pattern|] == pattern {
      var rest := s[|pattern|..];
      ReplaceLength(rest, pattern, replacement);
      var c := Count(rest, pattern);
      var lr := |ReplaceAll(rest, pattern, replacement)|;
      assert Count(s, pattern) == 1 + c;
      assert |ReplaceAll(s, pattern, replacement)| == |replacement| + lr;
      assert |s| == |pattern| + |rest|;
      OneMore(c, |pattern|, |replacement|, lr, |rest|);
    } else {
      ReplaceLength(s[1..], pattern, replacement);
      assert Count(s, pattern) == Count(s[1..], pattern);
      assert |ReplaceAll(s, pattern, replacement)| == 1 + |ReplaceAll(s[1..], pattern, replacement)|;
    }
  }

  /** The arithmetic step of ReplaceLength for one more match, kept apart
      from the sequence facts so that the solver sees it on its own. */
  lemma OneMore(c: nat, p: nat, q: nat, lr: nat, lrest: nat)
    requires lr + c * p == lrest + c * q
    ensures (q + lr) + (1 + c) * p == (p + lrest) + (1 + c) * q
  {
  }

  /** Replacing a string by itself changes nothing. */
  lemma {:induction false} ReplaceIdentity(s: string, x: string)
    ensures ReplaceAll(s, x, x) == s
    decreases |s|
  {
    if |x| == 0 {
      if s != [] {
        ReplaceIdentity(s[1..], x);
        assert s == [s[0]] + s[1..];
      }
    } else if |s| < |x| {
    } else if s[..|x|] == x {
      ReplaceIdentity(s[|x|..], x);
      assert s == s[..|x|] + s[|x|..];
    } else {
      ReplaceIdentity(s[1..], x);
      assert s == [s[0]] + s[1..];
    }
  }

  /** A string without a match of the pattern is returned as it is. */
  lemma {:induction false} ReplaceAbsent(s: string, pattern: string, replacement: string)
    requires |pattern| > 0 && !Contains(s, pattern)
    ensures ReplaceAll(s, pattern, replacement) == s
    decreases |s|
  {
    CountPositiveIff(s, pattern);
    if |s| >= |pattern| {
      assert !OccursAt(s, pattern, 0);
      assert !Contains(s[1..], pattern) by {
        CountPositiveIff(s[1..], pattern);
      }
      ReplaceAbsent(s[1..], pattern, replacement);
      assert s == [s[0]] + s[1..];
    }
  }

  /** Index just past the first '\n' of `s`, or |s| when there is none. */
  function LineEnd(s: string): (e: nat)
    ensures e <= |s|
    ensures s != [] ==> 0 < e && (e == |s| || s[e - 1] == '\n')
    ensures 0 < e ==> '\n' !in s[..e - 1]
    ensures e < |s| ==> s[e - 1] == '\n'
    decreases |s|
  {
    if s == [] then 0
    else if s[0] == '\n' then 1
    else 1 + LineEnd(s[1..])
  }

  /** The lines `readlines()` yields for newline-translated text. Joined back
      together they give the text, and no line is empty. */
  function Lines(s: string): (ls: seq<string>)
    ensures Join(ls) == s
    ensures forall i :: 0 <= i < |ls| ==> ls[i] != []
    decreases |s|
  {
    if s == [] then []
    else
      var e := LineEnd(s);
      assert s == s[..e] + s[e..];
      [s[..e]] + Lines(s[e..])
  }

  /** Every line keeps its '\n', only the last one may lack it, and no line
      holds a '\n' anywhere else. */
  lemma {:induction false} LinesShape(s: string)
    ensures forall i :: 0 <= i < |Lines(s)| ==> '\n' !in Lines(s)[i][..|Lines(s)[i]| - 1]
    ensures forall i :: 0 <= i < |Lines(s)| - 1 ==> Lines(s)[i][|Lines(s)[i]| - 1] == '\n'
    decreases |s|
  {
    if s != [] {
      var e := LineEnd(s);
      var head, rest := s[..e], s[e..];
      LinesShape(rest);
      var ls, tail := Lines(s), Lines(rest);
      assert ls == [head] + tail;
      forall i | 0 <= i < |ls|
        ensures '\n' !in ls[i][..|ls[i]| - 1]
      {
        if i == 0 {
          assert head[..e - 1] == s[..e - 1];
        } else {
          assert ls[i] == tail[i - 1];
        }
      }
      forall i | 0 <= i < |ls| - 1
        ensures ls[i][|ls[i]| - 1] == '\n'
      {
        if i == 0 {
          assert rest != [];
        } else {
          assert ls[i] == tail[i - 1];
        }
      }
    }
  }

  function Join(ls: seq<string>): string
  {
    if ls == [] then [] else ls[0] + Join(ls[1..])
  }

  /** Total matches of `t` over the lowered lines. */
  function CountLines(ls: seq<string>, t: string): nat
    requires |t| > 0
  {
    if ls == [] then 0 else Count(Lower(ls[0]), t) + CountLines(ls[1..], t)
  }

  lemma {:induction false} CountLinesSnoc(ls: seq<string>, x: string, t: string)
    requires |t| > 0
    ensures CountLines(ls + [x], t) == CountLines(ls, t) + Count(Lower(x), t)
  {
    if ls == [] {
      assert ([] + [x])[1..] == [];
    } else {
      assert (ls + [x])[1..] == ls[1..] + [x];
      CountLinesSnoc(ls[1..], x, t);
    }
  }

  /** Counting over two pieces of lowered text separately is exact when the
      first piece ends a line (or the second is empty) and `t` has no '\n'. */
  lemma {:induction false} CountLowerConcat(a: string, b: string, t: string)
    requires |t| > 0 && '\n' !in t
    requires b == [] || (a != [] && a[|a| - 1] == '\n')
    ensures Count(Lower(a + b), t) == Count(Lower(a), t) + Count(Lower(b), t)
  {
    LowerConcat(a, b);
    if b == [] {
      assert a + b == a;
      assert Lower(b) == [];
    } else {
      assert Lower(a)[|a| - 1] == '\n';
      CountConcat(Lower(a), Lower(b), t);
    }
  }

  /** When `t` has no '\n', no match crosses a line boundary: counting over
      the whole lowered text equals counting line by line. */
  lemma {:induction false} CountOverLines(s: string, t: string)
    requires |t| > 0 && '\n' !in t
    ensures Count(Lower(s), t) == CountLines(Lines(s), t)
    decreases |s|
  {
    if s != [] {
      var e := LineEnd(s);
      var head, rest := s[..e], s[e..];
      assert s == head + rest;
      assert Lines(s) == [head] + Lines(rest);
      CountLowerConcat(head, rest, t);
      CountOverLines(rest, t);
    }
  }
}
