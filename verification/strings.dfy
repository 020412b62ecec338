/** The string primitives the catalog relies on: `String.prototype.trim`,
    `toLowerCase` (ASCII letters only), `includes`, and the `\d` class of a
    regular expression without the `u` flag. */
module Strings {

  /** The code points `trim` removes: ECMAScript's WhiteSpace (tab, vertical
      tab, form feed, space, no-break space, byte order mark and every other
      space separator) and LineTerminator (line feed, carriage return, line
      and paragraph separators). */
  predicate IsWhitespace(c: char) {
    || c == '\t' || c == '\n' || c == '\U{000B}' || c == '\U{000C}' || c == '\r'
    || c == ' ' || c == '\U{00A0}' || c == '\U{1680}'
    || ('\U{2000}' <= c <= '\U{200A}')
    || c == '\U{2028}' || c == '\U{2029}' || c == '\U{202F}' || c == '\U{205F}'
    || c == '\U{3000}' || c == '\U{FEFF}'
  }

  predicate AllWhitespace(s: string) {
    forall i :: 0 <= i < |s| ==> IsWhitespace(s[i])
  }

  /** Neither end of `s` is whitespace. */
  predicate IsTrimmed(s: string) {
    |s| == 0 || (!IsWhitespace(s[0]) && !IsWhitespace(s[|s| - 1]))
  }

  /** Length of the longest all-whitespace prefix of `s`. */
  function LeadingWhitespace(s: string): (n: nat)
    ensures n <= |s|
    ensures forall k :: 0 <= k < n ==> IsWhitespace(s[k])
    ensures n < |s| ==> !IsWhitespace(s[n])
  {
    if |s| > 0 && IsWhitespace(s[0]) then 1 + LeadingWhitespace(s[1..]) else 0
  }

  /** Length of the longest all-whitespace suffix of `s`. */
  function TrailingWhitespace(s: string): (n: nat)
    ensures n <= |s|
    ensures forall k :: |s| - n <= k < |s| ==> IsWhitespace(s[k])
    ensures n < |s| ==> !IsWhitespace(s[|s| - 1 - n])
  {
    if |s| > 0 && IsWhitespace(s[|s| - 1]) then 1 + TrailingWhitespace(s[..|s| - 1]) else 0
  }

  /** `s.trim()`: `s` without its leading and trailing whitespace. */
  function Trim(s: string): (r: string)
    ensures IsTrimmed(r)
    ensures |r| <= |s|
  {
    var rest := s[LeadingWhitespace(s)..];
    rest[..|rest| - TrailingWhitespace(rest)]
  }

  lemma SliceGlue(s: string, start: nat, keep: nat)
    requires start <= |s| && keep <= |s| - start
    ensures s == s[..start] + s[start..][..keep] + s[start..][keep..]
  {
    var rest := s[start..];
    assert rest == rest[..keep] + rest[keep..];
    assert s == s[..start] + rest;
  }

  /** Trimming only removes whitespace: `s` is the result with whitespace
      glued to either end. */
  lemma TrimSplits(s: string) returns (before: string, after: string)
    ensures s == before + Trim(s) + after
    ensures AllWhitespace(before) && AllWhitespace(after)
  {
    var start := LeadingWhitespace(s);
    var rest := s[start..];
    var keep := |rest| - TrailingWhitespace(rest);
    SliceGlue(s, start, keep);
    before, after := s[..start], rest[keep..];
    forall k | 0 <= k < |before|
      ensures IsWhitespace(before[k])
    {
      assert before[k] == s[k];
    }
    forall k | 0 <= k < |after|
      ensures IsWhitespace(after[k])
    {
      assert after[k] == rest[keep + k];
    }
  }

  lemma {:induction false} LeadingAfterWhitespace(ws: string, u: string)
    requires AllWhitespace(ws)
    ensures LeadingWhitespace(ws + u) == |ws| + LeadingWhitespace(u)
  {
    if |ws| > 0 {
      assert (ws + u)[1..] == ws[1..] + u;
      LeadingAfterWhitespace(ws[1..], u);
    } else {
      assert ws + u == u;
    }
  }

  lemma {:induction false} TrailingBeforeWhitespace(u: string, ws: string)
    requires AllWhitespace(ws)
    ensures TrailingWhitespace(u + ws) == |ws| + TrailingWhitespace(u)
  {
    if |ws| > 0 {
      assert (u + ws)[..|u + ws| - 1] == u + ws[..|ws| - 1];
      TrailingBeforeWhitespace(u, ws[..|ws| - 1]);
    } else {
      assert u + ws == u;
    }
  }

  /** `Trim` is determined by what it keeps: whatever trimmed core `t` is
      surrounded by whitespace, trimming recovers exactly `t`. */
  lemma TrimCharacterization(before: string, t: string, after: string)
    requires AllWhitespace(before) && AllWhitespace(after) && IsTrimmed(t)
    ensures Trim(before + t + after) == t
  {
    var s := before + t + after;
    assert s == before + (t + after);
    LeadingAfterWhitespace(before, t + after);
    if |t| == 0 {
      assert t + after == after + [];
      LeadingAfterWhitespace(after, []);
      assert s[LeadingWhitespace(s)..] == [];
    } else {
      assert (t + after)[0] == t[0];
      assert s[|before|..] == t + after;
      TrailingBeforeWhitespace(t, after);
    }
  }

  /** Trimming twice is trimming once. */
  lemma TrimIdempotent(s: string)
    ensures Trim(Trim(s)) == Trim(s)
  {
    TrimCharacterization([], Trim(s), []);
    assert [] + Trim(s) + [] == Trim(s);
  }

  /** The ASCII digits `0`-`9`, the class `\d`. */
  predicate IsDigit(c: char) {
    '0' <= c <= '9'
  }

  /** `toLowerCase` on one character, for the ASCII letters. */
  function LowerChar(c: char): char {
    if 'A' <= c <= 'Z' then (c as int + 32) as char else c
  }

  /** `s.toLowerCase()`, for the ASCII letters. */
  function Lower(s: string): (r: string)
    ensures |r| == |s|
    ensures forall i :: 0 <= i < |s| ==> r[i] == LowerChar(s[i])
  {
    seq(|s|, i requires 0 <= i < |s| => LowerChar(s[i]))
  }

  /** `t` occurs in `s` starting at position `i`. */
  predicate OccursAt(s: string, t: string, i: int) {
    0 <= i <= |s| - |t| && s[i..i + |t|] == t
  }

  /** `s.includes(t)`, as a scan over the start positions of `s`. */
  predicate Includes(s: string, t: string)
    decreases |s|
  {
    || (|t| <= |s| && s[..|t|] == t)
    || (|s| > 0 && Includes(s[1..], t))
  }

  /** The scan finds `t` exactly when `t` occurs somewhere in `s`. */
  lemma {:induction false} IncludesIffOccurs(s: string, t: string)
    ensures Includes(s, t) <==> exists i :: OccursAt(s, t, i)
  {
    if |t| <= |s| && s[..|t|] == t {
      assert s[0..0 + |t|] == s[..|t|];
      assert OccursAt(s, t, 0);
    }
    if |s| > 0 {
      IncludesIffOccurs(s[1..], t);
      if Includes(s[1..], t) {
        var i :| OccursAt(s[1..], t, i);
        assert s[1..][i..i + |t|] == s[i + 1..i + 1 + |t|];
        assert OccursAt(s, t, i + 1);
      }
      if i :| OccursAt(s, t, i) {
        if i > 0 {
          assert s[1..][i - 1..i - 1 + |t|] == s[i..i + |t|];
          assert OccursAt(s[1..], t, i - 1);
        } else {
          assert s[..|t|] == s[0..0 + |t|];
        }
      }
    } else {
      if i :| OccursAt(s, t, i) {
        assert i == 0 && |t| == 0;
        assert s[..|t|] == t;
        assert Includes(s, t);
      }
    }
  }
}
