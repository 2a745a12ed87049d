/**
 * The JavaScript string operations the account store relies on:
 * `String.prototype.trim`, `String.prototype.split(';')` and
 * `Array.prototype.join(';')`. Strings are sequences of characters.
 */
module Text {

  /** The character labels are separated by. */
  const SEPARATOR: char := ';'

  /**
   * The characters `trim` strips. JavaScript strips every Unicode space
   * separator and line terminator; this set lists the common ones. The
   * lemmas use only that `;` is not in it.
   */
  predicate IsWhitespace(c: char) {
    c == ' ' || c == '\t' || c == '\n' || c == '\r' || c == '\U{B}' || c == '\U{C}'
    || c == '\U{A0}' || c == '\U{FEFF}' || c == '\U{2028}' || c == '\U{2029}'
  }

  predicate AllWhitespace(s: string) {
    forall i :: 0 <= i < |s| ==> IsWhitespace(s[i])
  }

  /** Whitespace never holds the separator. */
  lemma WhitespaceHasNoSeparator(w: string)
    requires AllWhitespace(w)
    ensures SEPARATOR !in w
  {
    forall k | 0 <= k < |w|
      ensures w[k] != SEPARATOR
    {
      assert IsWhitespace(w[k]);
    }
  }

  /** Neither starts nor ends with whitespace. */
  predicate Trimmed(s: string) {
    s == [] || (!IsWhitespace(s[0]) && !IsWhitespace(s[|s| - 1]))
  }

  /** Drops the leading whitespace: the result is the suffix after it. */
  function TrimStart(s: string): (r: string)
    ensures |r| <= |s| && r == s[|s| - |r|..]
    ensures forall j :: 0 <= j < |s| - |r| ==> IsWhitespace(s[j])
    ensures r == [] || !IsWhitespace(r[0])
  {
    if |s| > 0 && IsWhitespace(s[0]) then
      var rest := s[1..];
      var r := TrimStart(rest);
      assert rest[|rest| - |r|..] == s[|s| - |r|..];
      assert forall j :: 1 <= j < |s| - |r| ==> s[j] == rest[j - 1];
      r
    else s
  }

  /** Drops the trailing whitespace: the result is the prefix before it. */
  function TrimEnd(s: string): (r: string)
    ensures |r| <= |s| && r == s[..|r|]
    ensures forall j :: |r| <= j < |s| ==> IsWhitespace(s[j])
    ensures r == [] || !IsWhitespace(r[|r| - 1])
  {
    if |s| > 0 && IsWhitespace(s[|s| - 1]) then
      var init := s[..|s| - 1];
      var r := TrimEnd(init);
      assert init[..|r|] == s[..|r|];
      assert forall j :: |r| <= j < |s| - 1 ==> s[j] == init[j];
      r
    else s
  }

  /**
   * `s.trim()`: the slice of `s` left once the whitespace around it is
   * removed. It is trimmed, and only whitespace lies outside it.
   */
  function Trim(s: string): (r: string)
    ensures Trimmed(r)
    ensures var i := LeadingWhitespace(s);
            i + |r| <= |s| && r == s[i..i + |r|]
            && forall j :: 0 <= j < i || i + |r| <= j < |s| ==> IsWhitespace(s[j])
  {
    var t := TrimStart(s);
    var r := TrimEnd(t);
    assert forall j :: |r| <= j < |t| ==> IsWhitespace(t[j]);
    r
  }

  /** How many whitespace characters `trim` removes from the front of `s`. */
  function LeadingWhitespace(s: string): nat {
    |s| - |TrimStart(s)|
  }

  /** Trimming what is already trimmed changes nothing. */
  lemma TrimOfTrimmed(s: string)
    requires Trimmed(s)
    ensures Trim(s) == s
  {
  }

  /** Leading whitespace before a non-whitespace start is all `TrimStart` removes. */
  lemma {:induction false} TrimStartSkips(w: string, t: string)
    requires AllWhitespace(w)
    requires t == [] || !IsWhitespace(t[0])
    ensures TrimStart(w + t) == t
  {
    if w != [] {
      assert (w + t)[1..] == w[1..] + t;
      TrimStartSkips(w[1..], t);
    }
  }

  /** Trailing whitespace after a non-whitespace end is all `TrimEnd` removes. */
  lemma {:induction false} TrimEndSkips(t: string, w: string)
    requires AllWhitespace(w)
    requires t == [] || !IsWhitespace(t[|t| - 1])
    ensures TrimEnd(t + w) == t
  {
    if w != [] {
      assert (t + w)[..|t + w| - 1] == t + w[..|w| - 1];
      TrimEndSkips(t, w[..|w| - 1]);
    } else {
      assert t + w == t;
    }
  }

  /**
   * `trim` is determined by what it keeps: a trimmed string padded with
   * whitespace on both sides trims back to itself.
   */
  lemma TrimAround(w1: string, t: string, w2: string)
    requires AllWhitespace(w1) && AllWhitespace(w2) && Trimmed(t)
    ensures Trim(w1 + t + w2) == t
  {
    assert w1 + t + w2 == w1 + (t + w2);
    if t == [] {
      assert AllWhitespace(w1 + w2);
      assert w1 + w2 == (w1 + w2) + [];
      TrimStartSkips(w1 + w2, []);
    } else {
      TrimStartSkips(w1, t + w2);
      TrimEndSkips(t, w2);
    }
  }

  /** Trimming never introduces a character. */
  lemma TrimKeepsCharacters(s: string, c: char)
    requires c in Trim(s)
    ensures c in s
  {
    TrimSplitsString(s);
    var i, t := LeadingWhitespace(s), Trim(s);
    assert c in s[..i] + t + s[i + |t|..];
  }

  /** A string is what `trim` removes in front, what it keeps, and what it removes behind. */
  lemma TrimSplitsString(s: string)
    ensures var i, t := LeadingWhitespace(s), Trim(s);
      i + |t| <= |s|
      && AllWhitespace(s[..i]) && AllWhitespace(s[i + |t|..])
      && s == s[..i] + t + s[i + |t|..]
  {
    var i, t := LeadingWhitespace(s), Trim(s);
    var j := i + |t|;
    assert AllWhitespace(s[..i]) by {
      forall k | 0 <= k < i
        ensures IsWhitespace(s[..i][k])
      {
        assert s[..i][k] == s[k];
      }
    }
    assert AllWhitespace(s[j..]) by {
      forall k | 0 <= k < |s| - j
        ensures IsWhitespace(s[j..][k])
      {
        assert s[j..][k] == s[j + k];
      }
    }
    assert s == s[..i] + t + s[j..] by {
      assert t == s[i..j];
      SliceInThree(s, i, j);
    }
  }

  /** Cutting a string at two points and gluing the parts back gives it back. */
  lemma SliceInThree(s: string, i: nat, j: nat)
    requires i <= j <= |s|
    ensures s == s[..i] + s[i..j] + s[j..]
  {
    assert s[..i] + s[i..j] == s[..j];
  }

  /** A string without the separator trims to one without it. */
  lemma TrimKeepsNoSeparator(s: string)
    requires SEPARATOR !in s
    ensures SEPARATOR !in Trim(s)
  {
    if SEPARATOR in Trim(s) {
      TrimKeepsCharacters(s, SEPARATOR);
    }
  }

  /**
   * `s.split(';')`: the pieces between separators, in order. There is
   * always at least one piece (the empty string splits into `[""]`), no
   * piece holds a separator, and joining the pieces gives `s` back.
   */
  function Split(s: string): (r: seq<string>)
    ensures |r| >= 1
    ensures forall i :: 0 <= i < |r| ==> SEPARATOR !in r[i]
    ensures Join(r) == s
  {
    if s == [] then [[]]
    else
      var rest := Split(s[1..]);
      if s[0] == SEPARATOR then
        assert ([[]] + rest)[1..] == rest;
        [[]] + rest
      else
        var r := [[s[0]] + rest[0]] + rest[1..];
        assert r[1..] == rest[1..];
        assert s == [s[0]] + s[1..];
        r
  }

  /**
   * `pieces.join(';')`; the empty list joins to the empty string, and
   * otherwise the result starts with the first piece. `SplitJoin` is its
   * inverse.
   */
  function Join(pieces: seq<string>): (r: string)
    ensures |pieces| >= 1 ==> pieces[0] <= r
  {
    if |pieces| == 0 then []
    else if |pieces| == 1 then pieces[0]
    else pieces[0] + [SEPARATOR] + Join(pieces[1..])
  }

  /** A separator-free prefix extends the first piece of what follows it. */
  lemma {:induction false} SplitPrefix(p: string, t: string)
    requires SEPARATOR !in p
    ensures Split(p + t) == [p + Split(t)[0]] + Split(t)[1..]
  {
    if p == [] {
      assert p + t == t && p + Split(t)[0] == Split(t)[0];
      assert Split(t) == [Split(t)[0]] + Split(t)[1..];
    } else {
      var rest := Split(t);
      var q := p + t;
      assert q[0] == p[0] != SEPARATOR;
      assert q[1..] == p[1..] + t;
      SplitPrefix(p[1..], t);
      var inner := Split(q[1..]);
      assert inner[0] == p[1..] + rest[0] && inner[1..] == rest[1..];
      assert Split(q) == [[q[0]] + inner[0]] + inner[1..];
      assert [p[0]] + (p[1..] + rest[0]) == p + rest[0];
    }
  }

  /** Splitting undoes joining, for at least one piece and no separators. */
  lemma {:induction false} SplitJoin(pieces: seq<string>)
    requires |pieces| >= 1
    requires forall i :: 0 <= i < |pieces| ==> SEPARATOR !in pieces[i]
    ensures Split(Join(pieces)) == pieces
  {
    if |pieces| == 1 {
      SplitPrefix(pieces[0], []);
      assert pieces[0] + [] == pieces[0];
    } else {
      var tail := Join(pieces[1..]);
      SplitJoin(pieces[1..]);
      SplitPrefix(pieces[0], [SEPARATOR] + tail);
      assert ([SEPARATOR] + tail)[1..] == tail;
      var rest := Split([SEPARATOR] + tail);
      assert rest == [[]] + pieces[1..];
      assert rest[0] == [] && rest[1..] == pieces[1..];
      assert pieces[0] + rest[0] == pieces[0];
      assert Join(pieces) == pieces[0] + ([SEPARATOR] + tail);
      assert pieces == [pieces[0]] + pieces[1..];
    }
  }

  /** The empty string is the join of no pieces or of one empty piece only. */
  lemma JoinEmpty(pieces: seq<string>)
    requires forall i :: 0 <= i < |pieces| ==> pieces[i] != []
    ensures Join(pieces) == [] <==> pieces == []
  {
    if |pieces| > 1 {
      assert |Join(pieces)| >= |pieces[0]| + 1;
    }
  }
}
