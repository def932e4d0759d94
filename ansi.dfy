/**
 * The sanitiser applied to every log line: carriage returns are dropped,
 * then every ANSI control sequence matching ESC '[' [0-9;?]* [ -/]* [@-~]
 * is removed, matches taken leftmost first and without overlap.
 */
module Ansi {
  import opened Wrappers

  const Esc: char := '\U{1B}'

  /** Parameter characters: [0-9;?]. */
  predicate IsParameter(c: char) { '0' <= c <= '9' || c == ';' || c == '?' }

  /** Intermediate characters: [ -/]. */
  predicate IsIntermediate(c: char) { ' ' <= c <= '/' }

  /** Final characters: [@-~]. */
  predicate IsFinal(c: char) { '@' <= c <= '~' }

  /** The end of the longest run of characters satisfying p that starts at i. */
  function SpanFrom(s: string, i: nat, p: char -> bool): (j: nat)
    requires i <= |s|
    ensures i <= j <= |s|
    decreases |s| - i
  {
    if i < |s| && p(s[i]) then SpanFrom(s, i + 1, p) else i
  }

  /**
   * The length of the match of the pattern at the start of s, if there is one.
   * Each run is taken greedily; the three character classes are disjoint, so
   * giving characters back can never produce a match that greed missed.
   */
  function CsiMatch(s: string): (r: Option<nat>)
    ensures r.Some? ==> 3 <= r.value <= |s|
  {
    if |s| < 2 || s[0] != Esc || s[1] != '[' then None
    else
      var p := SpanFrom(s, 2, IsParameter);
      var q := SpanFrom(s, p, IsIntermediate);
      if q < |s| && IsFinal(s[q]) then Some(q + 1) else None
  }

  /** The regular expression's sub(""): scans left to right, dropping each match and keeping other characters. */
  function RemoveCsi(s: string): string
    decreases |s|
  {
    if s == [] then []
    else
      match CsiMatch(s)
      case Some(n) => RemoveCsi(s[n..])
      case None => [s[0]] + RemoveCsi(s[1..])
  }

  /** message.replace("\r", ""). */
  function RemoveCarriageReturns(s: string): string
  {
    if s == [] then [] else (if s[0] == '\r' then [] else [s[0]]) + RemoveCarriageReturns(s[1..])
  }

  /** What _append_log stores for a message. */
  function Sanitize(message: string): string
  {
    RemoveCsi(RemoveCarriageReturns(message))
  }

  /** A well-formed control sequence: ESC '[' parameters, intermediates, one final character. */
  function Csi(params: string, inters: string, final: char): string
  {
    [Esc, '['] + params + inters + [final]
  }

  predicate WellFormedCsi(params: string, inters: string, final: char)
  {
    (forall i :: 0 <= i < |params| ==> IsParameter(params[i]))
    && (forall i :: 0 <= i < |inters| ==> IsIntermediate(inters[i]))
    && IsFinal(final)
  }

  lemma {:induction false} RemoveCsiKeepsCharacters(s: string)
    ensures |RemoveCsi(s)| <= |s|
    ensures forall c :: c in RemoveCsi(s) ==> c in s
  {
    if s != [] {
      match CsiMatch(s)
      case Some(n) =>
        RemoveCsiKeepsCharacters(s[n..]);
        assert forall c :: c in s[n..] ==> c in s;
      case None =>
        RemoveCsiKeepsCharacters(s[1..]);
        assert forall c :: c in s[1..] ==> c in s;
    }
  }

  lemma {:induction false} RemoveCarriageReturnsSpec(s: string)
    ensures '\r' !in RemoveCarriageReturns(s)
    ensures '\r' !in s ==> RemoveCarriageReturns(s) == s
  {
    if s != [] {
      RemoveCarriageReturnsSpec(s[1..]);
      if '\r' !in s {
        assert s == [s[0]] + s[1..];
      }
    }
  }

  /**
   * Removing carriage returns drops each '\r' and keeps every other
   * character where it was: splitting the text at any character shows it.
   */
  lemma RemoveCarriageReturnsSplices(a: string, c: char, b: string)
    ensures RemoveCarriageReturns(a + [c] + b)
            == RemoveCarriageReturns(a) + (if c == '\r' then [] else [c]) + RemoveCarriageReturns(b)
  {
    RemoveCarriageReturnsAppend(a + [c], b);
    RemoveCarriageReturnsAppend(a, [c]);
    assert [c][1..] == [];
  }

  /** No stored log line contains a carriage return, and none is longer than its message. */
  lemma SanitizeDropsCarriageReturns(message: string)
    ensures '\r' !in Sanitize(message)
    ensures |Sanitize(message)| <= |message|
  {
    RemoveCarriageReturnsSpec(message);
    RemoveCsiKeepsCharacters(RemoveCarriageReturns(message));
    RemoveCarriageReturnsLength(message);
  }

  lemma {:induction false} RemoveCarriageReturnsLength(s: string)
    ensures |RemoveCarriageReturns(s)| <= |s|
  {
    if s != [] {
      RemoveCarriageReturnsLength(s[1..]);
    }
  }

  lemma {:induction false} RemoveCarriageReturnsAppend(a: string, b: string)
    ensures RemoveCarriageReturns(a + b) == RemoveCarriageReturns(a) + RemoveCarriageReturns(b)
  {
    if a != [] {
      assert (a + b)[1..] == a[1..] + b;
      RemoveCarriageReturnsAppend(a[1..], b);
    } else {
      assert a + b == b;
    }
  }

  /** Text without escape characters passes through the scanner untouched. */
  lemma {:induction false} RemoveCsiPlainPrefix(plain: string, rest: string)
    requires Esc !in plain
    ensures RemoveCsi(plain + rest) == plain + RemoveCsi(rest)
  {
    if plain != [] {
      var s := plain + rest;
      assert s[0] == plain[0] && s[0] != Esc;
      assert s[1..] == plain[1..] + rest;
      RemoveCsiPlainPrefix(plain[1..], rest);
      assert plain == [plain[0]] + plain[1..];
    } else {
      assert plain + rest == rest;
    }
  }

  lemma {:induction false} SpanFromStops(s: string, i: nat, j: nat, p: char -> bool)
    requires i <= j <= |s|
    requires forall k :: i <= k < j ==> p(s[k])
    requires j < |s| ==> !p(s[j])
    ensures SpanFrom(s, i, p) == j
    decreases j - i
  {
    if i < j {
      SpanFromStops(s, i + 1, j, p);
    }
  }

  /** Every character in a span satisfies its predicate. */
  lemma {:induction false} SpanFromAll(s: string, i: nat, p: char -> bool)
    requires i <= |s|
    ensures forall k :: i <= k < SpanFrom(s, i, p) ==> p(s[k])
    decreases |s| - i
  {
    if i < |s| && p(s[i]) {
      SpanFromAll(s, i + 1, p);
    }
  }

  /**
   * CsiMatch finds exactly the control sequences: what it matches is a
   * well-formed sequence, and a well-formed sequence at the front is always
   * matched, whole; so None means no control sequence starts the text.
   */
  lemma CsiMatchCharacterized(s: string)
    ensures CsiMatch(s).Some? ==>
              exists params, inters, final :: WellFormedCsi(params, inters, final)
                                              && s[..CsiMatch(s).value] == Csi(params, inters, final)
    ensures forall params, inters, final :: WellFormedCsi(params, inters, final) && Csi(params, inters, final) <= s
              ==> CsiMatch(s) == Some(|Csi(params, inters, final)|)
    ensures CsiMatch(s).None? ==>
              forall params, inters, final :: WellFormedCsi(params, inters, final) ==> !(Csi(params, inters, final) <= s)
  {
    if CsiMatch(s).Some? {
      var p := SpanFrom(s, 2, IsParameter);
      var q := SpanFrom(s, p, IsIntermediate);
      SpanFromAll(s, 2, IsParameter);
      SpanFromAll(s, p, IsIntermediate);
      assert q < |s| && IsFinal(s[q]) && CsiMatch(s) == Some(q + 1);
      var params, inters, final := s[2..p], s[p..q], s[q];
      assert forall k :: 0 <= k < |params| ==> params[k] == s[k + 2];
      assert forall k :: 0 <= k < |inters| ==> inters[k] == s[k + p];
      assert WellFormedCsi(params, inters, final);
      assert s[..q + 1] == Csi(params, inters, final);
    }
    forall params, inters, final | WellFormedCsi(params, inters, final) && Csi(params, inters, final) <= s
      ensures CsiMatch(s) == Some(|Csi(params, inters, final)|)
    {
      var csi := Csi(params, inters, final);
      assert s == csi + s[|csi|..];
      CsiMatchesWhole(params, inters, final, s[|csi|..]);
    }
  }

  /** An escape character that starts no control sequence is kept, with the text before it. */
  lemma SanitizeKeepsStrayEscape(plain: string, rest: string)
    requires Esc !in plain && '\r' !in plain
    requires CsiMatch([Esc] + RemoveCarriageReturns(rest)).None?
    ensures Sanitize(plain + [Esc] + rest) == plain + [Esc] + Sanitize(rest)
  {
    var rest' := RemoveCarriageReturns(rest);
    var t := [Esc] + rest';
    assert RemoveCsi(t) == [Esc] + RemoveCsi(rest') by {
      assert t[0] == Esc && t[1..] == rest';
    }
    StrippedAroundEscape(plain, rest);
    RemoveCsiPlainPrefix(plain, t);
  }

  lemma StrippedAroundEscape(plain: string, rest: string)
    requires '\r' !in plain
    ensures RemoveCarriageReturns(plain + [Esc] + rest) == plain + ([Esc] + RemoveCarriageReturns(rest))
  {
    RemoveCarriageReturnsSplices(plain, Esc, rest);
    RemoveCarriageReturnsSpec(plain);
  }

  /** A well-formed control sequence at the front is matched whole, whatever follows it. */
  lemma CsiMatchesWhole(params: string, inters: string, final: char, rest: string)
    requires WellFormedCsi(params, inters, final)
    ensures CsiMatch(Csi(params, inters, final) + rest) == Some(|Csi(params, inters, final)|)
  {
    var csi := Csi(params, inters, final);
    var s := csi + rest;
    var p, q := 2 + |params|, 2 + |params| + |inters|;
    assert forall k :: 2 <= k < p ==> s[k] == params[k - 2];
    assert forall k :: p <= k < q ==> s[k] == inters[k - p];
    assert s[q] == final;
    if p < q {
      assert !IsParameter(s[p]);
    }
    SpanFromStops(s, 2, p, IsParameter);
    SpanFromStops(s, p, q, IsIntermediate);
  }

  /**
   * A colour code between plain text and the rest of a message is removed
   * and nothing around it is lost.
   */
  lemma SanitizeRemovesCsi(plain: string, params: string, inters: string, final: char, rest: string)
    requires Esc !in plain && '\r' !in plain
    requires WellFormedCsi(params, inters, final)
    ensures Sanitize(plain + Csi(params, inters, final) + rest) == plain + Sanitize(rest)
  {
    var csi := Csi(params, inters, final);
    assert '\r' !in csi by {
      forall k | 0 <= k < |csi| ensures csi[k] != '\r' {
        if 2 <= k < 2 + |params| {
          assert csi[k] == params[k - 2];
        } else if 2 + |params| <= k < 2 + |params| + |inters| {
          assert csi[k] == inters[k - 2 - |params|];
        }
      }
    }
    RemoveCarriageReturnsAppend(plain + csi, rest);
    RemoveCarriageReturnsSpec(plain + csi);
    var rest' := RemoveCarriageReturns(rest);
    assert RemoveCarriageReturns(plain + csi + rest) == plain + (csi + rest');
    RemoveCsiPlainPrefix(plain, csi + rest');
    CsiMatchesWhole(params, inters, final, rest');
    assert (csi + rest')[|csi|..] == rest';
  }

  /** Messages with neither escape characters nor carriage returns are stored as they are. */
  lemma SanitizePlainText(message: string)
    requires Esc !in message && '\r' !in message
    ensures Sanitize(message) == message
  {
    RemoveCarriageReturnsSpec(message);
    RemoveCsiPlainPrefix(message, []);
    assert message + [] == message;
  }

  /**
   * One pass is not a fixed point: removing an inner sequence can join an
   * escape character before it to text after it into a new sequence.
   */
  lemma SanitizeIsSinglePass()
    ensures Sanitize([Esc, Esc, '[', 'm', '[', 'm']) == [Esc, '[', 'm']
    ensures Sanitize([Esc, '[', 'm']) == []
  {
    var s := [Esc, Esc, '[', 'm', '[', 'm'];
    RemoveCarriageReturnsSpec(s);
    assert CsiMatch(s) == None;
    CsiMatchesWhole([], [], 'm', ['[', 'm']);
    assert s[1..] == Csi([], [], 'm') + ['[', 'm'];
    assert RemoveCsi(['[', 'm']) == ['[', 'm'] by {
      RemoveCsiPlainPrefix(['[', 'm'], []);
      assert ['[', 'm'] + [] == ['[', 'm'];
    }
    assert Csi([], [], 'm') == [Esc, '[', 'm'];
    assert s[1..][3..] == ['[', 'm'];
    assert RemoveCsi(s[1..]) == ['[', 'm'];
    assert RemoveCsi(s) == [Esc] + RemoveCsi(s[1..]);
    var t := [Esc, '[', 'm'];
    RemoveCarriageReturnsSpec(t);
    CsiMatchesWhole([], [], 'm', []);
    assert t == Csi([], [], 'm') + [];
  }
}
