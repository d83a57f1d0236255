/** Cutting a collected signature into signature-message fragments:
    `signature.match(/.{2187}/g)` and `Array.prototype.shift` on the result. */
module Fragments {

  import opened Wrappers

  const FRAGMENT_LENGTH: nat := 2187

  /** The characters the regular-expression `.` does not match. */
  predicate IsLineTerminator(c: char)
  {
    c == '\n' || c == '\r' || c == 0x2028 as char || c == 0x2029 as char
  }

  /** `s` is made of characters the regular-expression `.` matches. */
  predicate NoLineTerminator(s: string)
    decreases |s|
  {
    s == [] || (!IsLineTerminator(s[0]) && NoLineTerminator(s[1..]))
  }

  lemma {:induction false} NoLineTerminatorAnywhere(s: string)
    ensures NoLineTerminator(s) <==> forall k :: 0 <= k < |s| ==> !IsLineTerminator(s[k])
    decreases |s|
  {
    if s != [] {
      NoLineTerminatorAnywhere(s[1..]);
      assert forall k :: 1 <= k < |s| ==> s[1..][k - 1] == s[k];
    }
  }

  /** The successive matches of `/.{2187}/g`: at each position, 2187
      characters without a line terminator are a match and the search resumes
      after them; otherwise the search moves on by one character. */
  function MatchAll(s: string): (r: seq<string>)
    decreases |s|
  {
    if |s| < FRAGMENT_LENGTH then []
    else if NoLineTerminator(s[..FRAGMENT_LENGTH]) then [s[..FRAGMENT_LENGTH]] + MatchAll(s[FRAGMENT_LENGTH..])
    else MatchAll(s[1..])
  }

  /** Every match is 2187 characters without a line terminator, and the
      matches together are no longer than the signature. */
  lemma {:induction false} MatchAllPieces(s: string)
    ensures var r := MatchAll(s);
      && (forall k :: 0 <= k < |r| ==> |r[k]| == FRAGMENT_LENGTH && NoLineTerminator(r[k]))
      && FRAGMENT_LENGTH * |r| <= |s|
    decreases |s|
  {
    if |s| >= FRAGMENT_LENGTH {
      if NoLineTerminator(s[..FRAGMENT_LENGTH]) {
        MatchAllPieces(s[FRAGMENT_LENGTH..]);
        var r := MatchAll(s);
        assert r == [s[..FRAGMENT_LENGTH]] + MatchAll(s[FRAGMENT_LENGTH..]);
        forall k | 0 <= k < |r| ensures |r[k]| == FRAGMENT_LENGTH && NoLineTerminator(r[k]) {
          if k > 0 {
            assert r[k] == MatchAll(s[FRAGMENT_LENGTH..])[k - 1];
          }
        }
      } else {
        MatchAllPieces(s[1..]);
      }
    }
  }

  /** `String.prototype.match` with a global pattern: the matches, or `null`
      (here `None`) when there are none. */
  function Match(s: string): (r: Option<seq<string>>)
    ensures r.Some? ==> r.value != [] && r.value == MatchAll(s)
    ensures r.None? <==> MatchAll(s) == []
  {
    var all := MatchAll(s);
    if all == [] then None else Some(all)
  }

  /** Some 2187 consecutive characters from position `i` on hold no line
      terminator. */
  predicate CleanWindowAt(s: string, i: nat)
  {
    i + FRAGMENT_LENGTH <= |s| && NoLineTerminator(s[i..i + FRAGMENT_LENGTH])
  }

  /** `match` gives `null` exactly when no 2187 consecutive characters of the
      signature are free of line terminators, and otherwise its first match is
      the first such window. */
  lemma {:induction false} MatchIsNullWithoutCleanWindow(s: string)
    ensures Match(s).None? <==> forall i :: 0 <= i ==> !CleanWindowAt(s, i)
    ensures Match(s).Some? ==>
      exists i :: (0 <= i && CleanWindowAt(s, i)
                   && Match(s).value[0] == s[i..i + FRAGMENT_LENGTH]
                   && forall l :: 0 <= l < i ==> !CleanWindowAt(s, l))
    decreases |s|
  {
    if |s| < FRAGMENT_LENGTH {
      forall i | 0 <= i ensures !CleanWindowAt(s, i) { }
    } else if NoLineTerminator(s[..FRAGMENT_LENGTH]) {
      assert s[0..FRAGMENT_LENGTH] == s[..FRAGMENT_LENGTH];
      assert CleanWindowAt(s, 0);
    } else {
      var t := s[1..];
      MatchIsNullWithoutCleanWindow(t);
      assert MatchAll(s) == MatchAll(t);
      assert !CleanWindowAt(s, 0) by {
        assert s[0..FRAGMENT_LENGTH] == s[..FRAGMENT_LENGTH];
      }
      if Match(s).None? {
        forall i | 0 <= i ensures !CleanWindowAt(s, i) {
          if i > 0 {
            CleanWindowAfterFirst(s, i - 1);
          }
        }
      } else {
        var i :| 0 <= i && CleanWindowAt(t, i) && Match(t).value[0] == t[i..i + FRAGMENT_LENGTH]
          && forall l :: 0 <= l < i ==> !CleanWindowAt(t, l);
        CleanWindowAfterFirst(s, i);
        assert s[i + 1..i + 1 + FRAGMENT_LENGTH] == t[i..i + FRAGMENT_LENGTH];
        forall l | 0 <= l < i + 1 ensures !CleanWindowAt(s, l) {
          if l > 0 {
            CleanWindowAfterFirst(s, l - 1);
          }
        }
      }
    }
  }

  /** The windows of `s` after the first are those of `s[1..]`. */
  lemma CleanWindowAfterFirst(s: string, i: nat)
    requires s != []
    ensures CleanWindowAt(s, i + 1) == CleanWindowAt(s[1..], i)
  {
    if i + 1 + FRAGMENT_LENGTH <= |s| {
      assert s[i + 1..i + 1 + FRAGMENT_LENGTH] == s[1..][i..i + FRAGMENT_LENGTH];
    }
  }

  /** A signature with no line terminator in it is cut into its consecutive
      2187-character pieces, all of them; a shorter piece left at the end is
      dropped. */
  lemma {:induction false} MatchAllCutsPlainSignature(s: string)
    requires NoLineTerminator(s)
    ensures |MatchAll(s)| == |s| / FRAGMENT_LENGTH
    ensures forall k :: 0 <= k < |MatchAll(s)| ==>
      MatchAll(s)[k] == s[FRAGMENT_LENGTH * k..FRAGMENT_LENGTH * (k + 1)]
    decreases |s|
  {
    if |s| >= FRAGMENT_LENGTH {
      var tail := s[FRAGMENT_LENGTH..];
      NoLineTerminatorAnywhere(s);
      NoLineTerminatorAnywhere(s[..FRAGMENT_LENGTH]);
      NoLineTerminatorAnywhere(tail);
      assert NoLineTerminator(s[..FRAGMENT_LENGTH]) by {
        forall k | 0 <= k < FRAGMENT_LENGTH ensures !IsLineTerminator(s[..FRAGMENT_LENGTH][k]) {
          assert s[..FRAGMENT_LENGTH][k] == s[k];
        }
      }
      assert NoLineTerminator(tail) by {
        forall k | 0 <= k < |tail| ensures !IsLineTerminator(tail[k]) {
          assert tail[k] == s[FRAGMENT_LENGTH + k];
        }
      }
      MatchAllCutsPlainSignature(tail);
      assert |tail| / FRAGMENT_LENGTH == |s| / FRAGMENT_LENGTH - 1;
      var r := MatchAll(s);
      assert r == [s[..FRAGMENT_LENGTH]] + MatchAll(tail);
      forall k | 0 <= k < |r|
        ensures r[k] == s[FRAGMENT_LENGTH * k..FRAGMENT_LENGTH * (k + 1)]
      {
        if k > 0 {
          assert r[k] == MatchAll(tail)[k - 1];
          assert tail[FRAGMENT_LENGTH * (k - 1)..FRAGMENT_LENGTH * k]
              == s[FRAGMENT_LENGTH * k..FRAGMENT_LENGTH * (k + 1)];
        }
      }
    }
  }

  /** A line terminator at `t` lies in every window starting at `j..t` when
      those windows are 2187 characters long, so no match starts there and
      the search resumes right after it. */
  lemma {:induction false} TerminatorBlocksWindowsUpTo(s: string, t: nat, j: nat)
    requires j <= t + 1 && t < |s| && t < j + FRAGMENT_LENGTH && IsLineTerminator(s[t])
    ensures MatchAll(s[j..]) == MatchAll(s[t + 1..])
    decreases t + 1 - j
  {
    if j <= t {
      var u := s[j..];
      if |u| >= FRAGMENT_LENGTH {
        NoLineTerminatorAnywhere(u[..FRAGMENT_LENGTH]);
        assert u[..FRAGMENT_LENGTH][t - j] == s[t];
        assert u[1..] == s[j + 1..];
        TerminatorBlocksWindowsUpTo(s, t, j + 1);
      }
    }
  }

  /** A line terminator anywhere in the first 2187 characters is never
      covered by a match: no match starts at or before it, and the matches are
      those of the text after it. */
  lemma LineTerminatorIsSkipped(s: string, t: nat)
    requires t < FRAGMENT_LENGTH && t < |s| && IsLineTerminator(s[t])
    ensures MatchAll(s) == MatchAll(s[1..])
    ensures MatchAll(s) == MatchAll(s[t + 1..])
  {
    TerminatorBlocksWindowsUpTo(s, t, 0);
    assert s[0..] == s;
    TerminatorBlocksWindowsUpTo(s, t, 1);
  }

  /** `Array.prototype.shift`: the first element (`undefined`, here `None`,
      for an empty array) and the array without it. */
  function Shift(q: seq<string>): (r: (Option<string>, seq<string>))
    ensures q == [] ==> r == (None, [])
    ensures q != [] ==> r.0 == Some(q[0]) && [q[0]] + r.1 == q
  {
    if q == [] then (None, []) else (Some(q[0]), q[1..])
  }
}
