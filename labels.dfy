/**
 * Label normalisation of the account store: the raw label string a user
 * types is cleaned into `;`-separated, trimmed, non-empty pieces (at most
 * `MAX_LABELS` of them), and the structured label list is derived from the
 * cleaned string.
 */
module Labels {
  import opened Text

  /** `.slice(0, 50)`: at most this many labels survive normalisation. */
  const MAX_LABELS: nat := 50

  /** One entry of an account's `label` list, `{ text: string }`. */
  datatype Label = Label(text: string)

  /** A piece normalisation can keep: non-empty, trimmed, without `;`. */
  predicate IsLabelText(t: string) {
    t != [] && Trimmed(t) && SEPARATOR !in t
  }

  /**
   * `.map(s => s.trim())`: one trimmed piece per piece, none longer than
   * its source.
   */
  function TrimEach(pieces: seq<string>): (r: seq<string>)
    ensures |r| == |pieces|
    ensures forall i :: 0 <= i < |r| ==> Trimmed(r[i]) && |r[i]| <= |pieces[i]|
  {
    seq(|pieces|, i requires 0 <= i < |pieces| => Trim(pieces[i]))
  }

  /**
   * `.filter(s => s.length > 0)`: the non-empty pieces in their order. What
   * it keeps came from the input, and an input without empty pieces passes
   * through whole. `DropEmptyKeepsNonEmpty` and `DropEmptyAppend` say that
   * every non-empty piece is kept, in order.
   */
  function DropEmpty(pieces: seq<string>): (r: seq<string>)
    ensures |r| <= |pieces|
    ensures forall i :: 0 <= i < |r| ==> r[i] != [] && r[i] in pieces
    ensures (forall i :: 0 <= i < |pieces| ==> pieces[i] != []) ==> r == pieces
  {
    if pieces == [] then []
    else if pieces[0] == [] then DropEmpty(pieces[1..])
    else [pieces[0]] + DropEmpty(pieces[1..])
  }

  /** The filter loses no non-empty piece. */
  lemma {:induction false} DropEmptyKeepsNonEmpty(pieces: seq<string>)
    ensures forall i :: 0 <= i < |pieces| && pieces[i] != [] ==> pieces[i] in DropEmpty(pieces)
  {
    if pieces != [] {
      var tail := pieces[1..];
      DropEmptyKeepsNonEmpty(tail);
      forall i | 1 <= i < |pieces| && pieces[i] != []
        ensures pieces[i] in DropEmpty(pieces)
      {
        assert pieces[i] == tail[i - 1];
      }
    }
  }

  /**
   * The filter works piece by piece: filtering a concatenation is the
   * concatenation of the filtered parts, so the kept pieces stay in their
   * input order.
   */
  lemma {:induction false} DropEmptyAppend(a: seq<string>, b: seq<string>)
    ensures DropEmpty(a + b) == DropEmpty(a) + DropEmpty(b)
  {
    if a != [] {
      assert (a + b)[0] == a[0];
      assert (a + b)[1..] == a[1..] + b;
      DropEmptyAppend(a[1..], b);
    } else {
      assert a + b == b;
    }
  }

  /** `.slice(0, 50)`: the first `MAX_LABELS` pieces, or all when there are fewer. */
  function KeepFirst(pieces: seq<string>): (r: seq<string>)
    ensures |r| <= MAX_LABELS && |r| <= |pieces| && r == pieces[..|r|]
    ensures |pieces| <= MAX_LABELS ==> r == pieces
    ensures |pieces| > MAX_LABELS ==> |r| == MAX_LABELS
  {
    if |pieces| <= MAX_LABELS then pieces else pieces[..MAX_LABELS]
  }

  /** The trimmed pieces of a split raw string all satisfy `IsLabelText` once empty ones go. */
  lemma TrimmedPiecesAreLabelTexts(raw: string)
    ensures var kept := DropEmpty(TrimEach(Split(raw)));
      forall i :: 0 <= i < |kept| ==> IsLabelText(kept[i])
  {
    var split := Split(raw);
    var trimmed := TrimEach(split);
    forall j | 0 <= j < |trimmed|
      ensures Trimmed(trimmed[j]) && SEPARATOR !in trimmed[j]
    {
      if SEPARATOR in trimmed[j] {
        TrimKeepsCharacters(split[j], SEPARATOR);
      }
    }
  }

  /** Keeping a prefix of the filtered pieces keeps them valid label texts. */
  lemma FirstPiecesAreLabelTexts(raw: string)
    ensures var r := KeepFirst(DropEmpty(TrimEach(Split(raw))));
      forall i :: 0 <= i < |r| ==> IsLabelText(r[i])
  {
    var kept := DropEmpty(TrimEach(Split(raw)));
    TrimmedPiecesAreLabelTexts(raw);
    var r := KeepFirst(kept);
    forall i | 0 <= i < |r|
      ensures IsLabelText(r[i])
    {
      assert r[i] == kept[i];
    }
  }

  /**
   * The pieces that survive the normalisation chain of `updateAccount`:
   * split on `;`, trim, drop empty pieces, keep the first `MAX_LABELS`.
   * Each one is a valid label text and there are at most `MAX_LABELS`.
   * `PiecesKeepEveryLabel` and `PiecesOfPadded` say which pieces these are.
   */
  function Pieces(raw: string): (r: seq<string>)
    ensures |r| <= MAX_LABELS
    ensures forall i :: 0 <= i < |r| ==> IsLabelText(r[i])
  {
    FirstPiecesAreLabelTexts(raw);
    KeepFirst(DropEmpty(TrimEach(Split(raw))))
  }

  /**
   * Unless the limit of `MAX_LABELS` is reached, every `;`-piece that is
   * not empty once trimmed survives normalisation.
   */
  lemma PiecesKeepEveryLabel(raw: string)
    ensures |Pieces(raw)| < MAX_LABELS ==>
              forall i :: 0 <= i < |Split(raw)| && Trim(Split(raw)[i]) != [] ==> Trim(Split(raw)[i]) in Pieces(raw)
  {
    var split := Split(raw);
    var trimmed := TrimEach(split);
    var kept := DropEmpty(trimmed);
    if |Pieces(raw)| < MAX_LABELS {
      assert Pieces(raw) == kept;
      DropEmptyKeepsNonEmpty(trimmed);
      forall i | 0 <= i < |split| && Trim(split[i]) != []
        ensures Trim(split[i]) in kept
      {
        assert trimmed[i] == Trim(split[i]);
      }
    }
  }

  /**
   * `cleanedLabelRaw` for a defined `labelRaw`: the surviving pieces
   * re-joined with `;`. It is empty exactly when no piece survives, and
   * otherwise splitting it gives back exactly the surviving pieces.
   */
  function NormalizeLabelRaw(raw: string): (r: string)
    ensures r == [] <==> Pieces(raw) == []
    ensures r != [] ==> Split(r) == Pieces(raw)
  {
    var pieces := Pieces(raw);
    JoinEmpty(pieces);
    if pieces == [] then Join(pieces)
    else
      SplitJoin(pieces);
      Join(pieces)
  }

  /**
   * The `label` list `updateAccount` stores for a cleaned string: one entry
   * per `;`-piece (trimmed again) when the string is non-empty, none when
   * it is empty.
   */
  function DeriveLabels(cleaned: string): (r: seq<Label>)
    ensures r == [] <==> cleaned == []
  {
    if |cleaned| > 0 then
      var pieces := Split(cleaned);
      seq(|pieces|, i requires 0 <= i < |pieces| => Label(Trim(pieces[i])))
    else []
  }

  /** The texts of a label list, in order. */
  function Texts(labels: seq<Label>): seq<string> {
    seq(|labels|, i requires 0 <= i < |labels| => labels[i].text)
  }

  /**
   * The derived labels of a normalised string are exactly the surviving
   * pieces, in order, and there are none exactly when the string is empty.
   */
  lemma LabelsAreSurvivingPieces(raw: string)
    ensures Texts(DeriveLabels(NormalizeLabelRaw(raw))) == Pieces(raw)
    ensures DeriveLabels(NormalizeLabelRaw(raw)) == [] <==> NormalizeLabelRaw(raw) == []
  {
    var pieces := Pieces(raw);
    var texts := Texts(DeriveLabels(NormalizeLabelRaw(raw)));
    if pieces != [] {
      forall i | 0 <= i < |pieces|
        ensures texts[i] == pieces[i]
      {
        TrimOfTrimmed(pieces[i]);
      }
    }
  }

  /** A list of valid label texts is a fixed point of every step of the chain. */
  lemma {:induction false} ChainKeepsLabelTexts(pieces: seq<string>)
    requires |pieces| <= MAX_LABELS
    requires forall i :: 0 <= i < |pieces| ==> IsLabelText(pieces[i])
    ensures KeepFirst(DropEmpty(TrimEach(pieces))) == pieces
  {
    forall i | 0 <= i < |pieces|
      ensures TrimEach(pieces)[i] == pieces[i]
    {
      TrimOfTrimmed(pieces[i]);
    }
    assert TrimEach(pieces) == pieces;
  }

  /** Nothing survives normalising the empty string. */
  lemma PiecesOfEmpty()
    ensures Pieces([]) == []
  {
    assert Split([]) == [[]];
    assert TrimEach([[]]) == [[]];
  }

  /** Joining valid label texts and normalising again gives them back. */
  lemma PiecesOfJoin(pieces: seq<string>)
    requires 0 < |pieces| <= MAX_LABELS
    requires forall i :: 0 <= i < |pieces| ==> IsLabelText(pieces[i])
    ensures Pieces(Join(pieces)) == pieces
  {
    SplitJoin(pieces);
    ChainKeepsLabelTexts(pieces);
  }

  /** A single valid label text is already normalised. */
  lemma SingleLabelIsNormal(raw: string)
    requires IsLabelText(raw)
    ensures NormalizeLabelRaw(raw) == raw
  {
    assert Pieces(raw) == [raw] by {
      assert Join([raw]) == raw;
      PiecesOfJoin([raw]);
    }
    var cleaned := NormalizeLabelRaw(raw);
    assert Split(cleaned) == [raw];
    assert cleaned == Join(Split(cleaned));
  }

  /**
   * Normalisation is idempotent: the cleaned string, normalised again, is
   * itself; so re-applying a stored `labelRaw` stores the same value.
   */
  lemma NormalizeIdempotent(raw: string)
    ensures NormalizeLabelRaw(NormalizeLabelRaw(raw)) == NormalizeLabelRaw(raw)
  {
    var pieces := Pieces(raw);
    if pieces == [] {
      PiecesOfEmpty();
    } else {
      PiecesOfJoin(pieces);
    }
  }

  /**
   * When every `;`-piece of the input is already a valid label text, the
   * cleaned pieces are the first `MAX_LABELS` of them, in their original
   * order; so 60 such pieces are cut to their first 50.
   */
  lemma {:induction false} CleanInputIsTruncated(raw: string)
    requires forall i :: 0 <= i < |Split(raw)| ==> IsLabelText(Split(raw)[i])
    ensures |Split(raw)| <= MAX_LABELS ==> Pieces(raw) == Split(raw)
    ensures |Split(raw)| > MAX_LABELS ==> Pieces(raw) == Split(raw)[..MAX_LABELS]
  {
    var split := Split(raw);
    forall i | 0 <= i < |split|
      ensures TrimEach(split)[i] == split[i]
    {
      TrimOfTrimmed(split[i]);
    }
    assert TrimEach(split) == split;
    assert DropEmpty(split) == split;
    assert Pieces(raw) == KeepFirst(split);
  }

  /**
   * A `;`-piece as a user may type it: a label text, possibly empty, with
   * whitespace on either side.
   */
  datatype Padded = Padded(before: string, text: string, after: string)

  predicate WellPadded(p: Padded) {
    AllWhitespace(p.before) && AllWhitespace(p.after) && Trimmed(p.text) && SEPARATOR !in p.text
  }

  /** The typed strings of a list of padded pieces. */
  function Typed(ps: seq<Padded>): seq<string> {
    seq(|ps|, i requires 0 <= i < |ps| => ps[i].before + ps[i].text + ps[i].after)
  }

  /** The label texts inside a list of padded pieces. */
  function TextsOf(ps: seq<Padded>): seq<string> {
    seq(|ps|, i requires 0 <= i < |ps| => ps[i].text)
  }

  /**
   * Every `;`-free string is a padded piece: its trimmed text with the
   * whitespace `trim` removes on either side. So `PiecesOfPadded` covers
   * every raw string.
   */
  function PaddingOf(s: string): (p: Padded)
    requires SEPARATOR !in s
    ensures WellPadded(p)
    ensures p.before + p.text + p.after == s
    ensures p.text == Trim(s)
  {
    var i := LeadingWhitespace(s);
    var t := Trim(s);
    TrimKeepsNoSeparator(s);
    TrimSplitsString(s);
    Padded(s[..i], t, s[i + |t|..])
  }

  /**
   * What normalisation keeps of an input typed as `;`-separated padded
   * pieces: the texts that are not empty, in input order, the first
   * `MAX_LABELS` of them. Padding and all-whitespace pieces disappear.
   */
  lemma PiecesOfPadded(ps: seq<Padded>)
    requires |ps| >= 1
    requires forall i :: 0 <= i < |ps| ==> WellPadded(ps[i])
    ensures var kept := DropEmpty(TextsOf(ps));
      Pieces(Join(Typed(ps))) == kept[..if |kept| <= MAX_LABELS then |kept| else MAX_LABELS]
  {
    var typed := Typed(ps);
    forall i | 0 <= i < |typed|
      ensures SEPARATOR !in typed[i]
      ensures Trim(typed[i]) == ps[i].text
    {
      WhitespaceHasNoSeparator(ps[i].before);
      WhitespaceHasNoSeparator(ps[i].after);
      TrimAround(ps[i].before, ps[i].text, ps[i].after);
    }
    SplitJoin(typed);
    assert TrimEach(typed) == TextsOf(ps);
  }
}
