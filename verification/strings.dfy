/** Go's `strings.Replace(s, old, new, -1)`, the single-pass unescaping of
    backslash-n and backslash-t that `Error.Stacks` performs with two such
    replacements, and the facts relating the two. */
module Strings {

  /** Replaces every leftmost, non-overlapping occurrence of `pat` in `s`,
      scanning from left to right, by `rep`; a replacement never longer than
      the pattern never lengthens the text. */
  function ReplaceAll(s: string, pat: string, rep: string): (r: string)
    requires pat != []
    ensures |rep| <= |pat| ==> |r| <= |s|
    decreases |s|
  {
    if |s| < |pat| then s
    else if s[..|pat|] == pat then rep + ReplaceAll(s[|pat|..], pat, rep)
    else [s[0]] + ReplaceAll(s[1..], pat, rep)
  }

  /** No character `a` in `s` is immediately followed by `b`. */
  predicate PairFree(s: string, a: char, b: char)
  {
    forall i :: 0 <= i < |s| - 1 ==> !(s[i] == a && s[i + 1] == b)
  }

  /** The first character of the replaced text is the replacement when `s`
      starts with `pat`, and the first character of `s` otherwise. */
  lemma ReplaceHead(s: string, pat: string, rep: string)
    requires |pat| == 2 && |rep| == 1 && s != []
    ensures ReplaceAll(s, pat, rep) != []
    ensures ReplaceAll(s, pat, rep)[0] ==
            if |s| >= 2 && s[..2] == pat then rep[0] else s[0]
  {
  }

  /** Text without an occurrence of `pat` comes back unchanged. */
  lemma {:induction false} ReplaceAbsent(s: string, pat: string, rep: string)
    requires |pat| == 2 && PairFree(s, pat[0], pat[1])
    ensures ReplaceAll(s, pat, rep) == s
    decreases |s|
  {
    if |s| >= 2 {
      assert s[..2] != pat by {
        assert !(s[0] == pat[0] && s[1] == pat[1]);
      }
      assert PairFree(s[1..], pat[0], pat[1]) by {
        forall i | 0 <= i < |s[1..]| - 1
          ensures !(s[1..][i] == pat[0] && s[1..][i + 1] == pat[1])
        {
          assert s[1..][i] == s[i + 1] && s[1..][i + 1] == s[i + 2];
        }
      }
      ReplaceAbsent(s[1..], pat, rep);
    }
  }

  /** When the replacement character is neither `a` nor `b`, replacing
      `pat` leaves no `a` followed by `b`, provided `s` had none or `a b`
      is `pat` itself. */
  lemma {:induction false} ReplacePairFree(s: string, pat: string, rep: string, a: char, b: char)
    requires |pat| == 2 && |rep| == 1 && rep[0] != a && rep[0] != b
    requires PairFree(s, a, b) || (a == pat[0] && b == pat[1])
    ensures PairFree(ReplaceAll(s, pat, rep), a, b)
    decreases |s|
  {
    var r := ReplaceAll(s, pat, rep);
    if |s| < 2 {
      assert r == s;
    } else if s[..2] == pat {
      var tail := s[2..];
      assert PairFree(s, a, b) ==> PairFree(tail, a, b) by {
        if PairFree(s, a, b) {
          forall i | 0 <= i < |tail| - 1 ensures !(tail[i] == a && tail[i + 1] == b) {
            assert tail[i] == s[i + 2] && tail[i + 1] == s[i + 3];
          }
        }
      }
      ReplacePairFree(tail, pat, rep, a, b);
      var rt := ReplaceAll(tail, pat, rep);
      assert r == rep + rt;
      forall i | 0 <= i < |r| - 1 ensures !(r[i] == a && r[i + 1] == b) {
        if i > 0 {
          assert r[i] == rt[i - 1] && r[i + 1] == rt[i];
        }
      }
    } else {
      var tail := s[1..];
      assert PairFree(s, a, b) ==> PairFree(tail, a, b) by {
        if PairFree(s, a, b) {
          forall i | 0 <= i < |tail| - 1 ensures !(tail[i] == a && tail[i + 1] == b) {
            assert tail[i] == s[i + 1] && tail[i + 1] == s[i + 2];
          }
        }
      }
      ReplacePairFree(tail, pat, rep, a, b);
      ReplaceHead(tail, pat, rep);
      var rt := ReplaceAll(tail, pat, rep);
      assert r == [s[0]] + rt;
      // The character after a lone s[0] is s[1] itself or the replacement.
      assert !(s[0] == a && rt[0] == b) by {
        if |tail| >= 2 && tail[..2] == pat {
          assert rt[0] == rep[0];
        } else {
          assert rt[0] == s[1];
          assert !(s[0] == pat[0] && s[1] == pat[1]) by {
            assert s[..2] == [s[0], s[1]];
          }
          assert PairFree(s, a, b) ==> !(s[0] == a && s[1] == b);
        }
      }
      forall i | 0 <= i < |r| - 1 ensures !(r[i] == a && r[i + 1] == b) {
        if i > 0 {
          assert r[i] == rt[i - 1] && r[i + 1] == rt[i];
        }
      }
    }
  }

  /** Replacing at the front: `s` starting with `pat` gives `rep` followed by
      the replaced rest. */
  lemma ReplaceMatch(x: string, pat: string, rep: string)
    requires |pat| == 2
    ensures ReplaceAll(pat + x, pat, rep) == rep + ReplaceAll(x, pat, rep)
  {
  }

  /** A first character that cannot start `pat` here is kept as it is. */
  lemma ReplaceSkip(c: char, x: string, pat: string, rep: string)
    requires |pat| == 2
    requires c != pat[0] || x == [] || x[0] != pat[1]
    ensures ReplaceAll([c] + x, pat, rep) == [c] + ReplaceAll(x, pat, rep)
  {
  }

  /** The unescaping of `Error.Stacks`, in one left-to-right pass: a
      backslash followed by `n` becomes a newline, a backslash followed by
      `t` becomes a tab, and every other character is kept. */
  function Unescape(s: string): string
    decreases |s|
  {
    if |s| < 2 then s
    else if s[0] == '\\' && s[1] == 'n' then "\n" + Unescape(s[2..])
    else if s[0] == '\\' && s[1] == 't' then "\t" + Unescape(s[2..])
    else [s[0]] + Unescape(s[1..])
  }

  /** Replacing every backslash-n by a newline and then every backslash-t by
      a tab is the single-pass `Unescape`. */
  lemma {:induction false} ReplaceTwiceIsUnescape(s: string)
    ensures ReplaceAll(ReplaceAll(s, "\\n", "\n"), "\\t", "\t") == Unescape(s)
    decreases |s|
  {
    var bn, bt := "\\n", "\\t";
    if |s| < 2 {
      assert ReplaceAll(s, bn, "\n") == s;
      assert ReplaceAll(s, bt, "\t") == s;
    } else {
      var x := s[2..];
      ReplaceTwiceIsUnescape(x);
      if s[0] == '\\' && s[1] == 'n' {
        assert s == bn + x;
        ReplaceMatch(x, bn, "\n");
        ReplaceSkip('\n', ReplaceAll(x, bn, "\n"), bt, "\t");
      } else if s[0] == '\\' && s[1] == 't' {
        assert s == [s[0]] + s[1..] && s[1..] == ['t'] + x;
        ReplaceSkip('t', x, bn, "\n");
        ReplaceSkip('\\', s[1..], bn, "\n");
        assert ReplaceAll(s, bn, "\n") == bt + ReplaceAll(x, bn, "\n");
        ReplaceMatch(ReplaceAll(x, bn, "\n"), bt, "\t");
      } else {
        var y := s[1..];
        assert s == [s[0]] + y;
        ReplaceTwiceIsUnescape(y);
        ReplaceSkip(s[0], y, bn, "\n");
        ReplaceHead(y, bn, "\n");
        ReplaceSkip(s[0], ReplaceAll(y, bn, "\n"), bt, "\t");
      }
    }
  }

  /** What `Unescape` promises: no backslash-n or backslash-t pair is left,
      the text never grows, and text without either pair comes back
      unchanged. */
  lemma UnescapeProperties(s: string)
    ensures PairFree(Unescape(s), '\\', 'n') && PairFree(Unescape(s), '\\', 't')
    ensures |Unescape(s)| <= |s|
    ensures PairFree(s, '\\', 'n') && PairFree(s, '\\', 't') ==> Unescape(s) == s
  {
  }

  /** The escaping that a text rendering applies to newlines and tabs: each
      becomes a backslash followed by `n` or `t`. */
  function Escape(t: string): string
  {
    if t == [] then []
    else if t[0] == '\n' then "\\n" + Escape(t[1..])
    else if t[0] == '\t' then "\\t" + Escape(t[1..])
    else [t[0]] + Escape(t[1..])
  }

  /** `Unescape` undoes `Escape` on text that holds no backslash. */
  lemma {:induction false} UnescapeEscape(t: string)
    requires forall i :: 0 <= i < |t| ==> t[i] != '\\'
    ensures Unescape(Escape(t)) == t
  {
    if t != [] {
      var rest := t[1..];
      UnescapeEscape(rest);
      var e := Escape(rest);
      if t[0] == '\n' || t[0] == '\t' {
        var s := Escape(t);
        assert s[2..] == e;
      } else {
        var s := Escape(t);
        assert s == [t[0]] + e && s[1..] == e;
      }
      assert t == [t[0]] + rest;
    }
  }
}
