/** The conversion of a site rating (1-10) to the Letterboxd scale (0.5-5.0 in half stars). The
    same function body appears in the extractor and in the command-line entry point. */
module Rating {
  import opened JsText

  /** Math.round: the nearest integer, halves rounded up. */
  function JsRound(x: real): int
  {
    (x + 0.5).Floor
  }

  /** convertToLetterboxdRating, evaluated exactly: 0 for r <= 0, otherwise round(r / 10 * 5 * 2) / 2. */
  function LetterboxdRating(r: int): real
  {
    if r <= 0 then 0.0 else JsRound((r as real / 10.0) * 5.0 * 2.0) as real / 2.0
  }

  /** The same conversion in half-star units, evaluated on integers: round(n / d) for n, d > 0 is
      the floor of (2n + d) / 2d. */
  function HalfStars(r: int): (h: int)
    ensures r <= 0 ==> h == 0
    ensures r > 0 ==> h == r
  {
    if r <= 0 then 0
    else
      var n, d := r * 5 * 2, 10;
      assert 2 * d * r <= 2 * n + d < 2 * d * (r + 1);
      (2 * n + d) / (2 * d)
  }

  /** The real-valued formula and the half-star count agree on every integer rating. */
  lemma LetterboxdRatingInHalfStars(r: int)
    ensures LetterboxdRating(r) == HalfStars(r) as real / 2.0
    ensures r > 0 ==> LetterboxdRating(r) == r as real / 2.0
  {
    if r > 0 {
      var x := (r as real / 10.0) * 5.0 * 2.0;
      assert x == r as real;
      assert (x + 0.5).Floor == r;
    }
  }

  /** A rating from 1 to 10 lands on the half-star scale 0.5 .. 5.0, and the conversion keeps order. */
  lemma LetterboxdRatingScale(r: int, r': int)
    requires r <= r'
    ensures LetterboxdRating(r) <= LetterboxdRating(r')
    ensures 1 <= r <= 10 ==> 0.5 <= LetterboxdRating(r) <= 5.0
    ensures r <= 0 ==> LetterboxdRating(r) == 0.0
  {
    LetterboxdRatingInHalfStars(r);
    LetterboxdRatingInHalfStars(r');
  }

  /** How String() renders h / 2 for a count h >= 0 of half stars: "3", "3.5". */
  function HalfStarsText(h: nat): (s: string)
    ensures '"' !in s && ',' !in s
  {
    var t := NatToString(h / 2);
    NatToStringDigits(h / 2);
    assert forall i :: 0 <= i < |t| ==> IsDigit(t[i]);
    if h % 2 == 0 then t else t + ".5"
  }

  /** The digits after the point in the text for h half stars: none, or a single '5'. */
  function HalfDigits(h: nat): (f: string)
    ensures HalfStarsText(h) == NatToString(h / 2) + (if f == [] then "" else "." + f)
  {
    if h % 2 == 0 then "" else "5"
  }

  /** parseFloat of the text for h half stars keeps its fraction and drops nothing but the leading
      zero of "0". */
  lemma HalfStarsParse(h: nat)
    ensures ParseFloat(HalfStarsText(h)) == Finite(false, StripLeadingZeros(NatToString(h / 2)), HalfDigits(h))
  {
    var f := HalfDigits(h);
    NatToStringDigits(h / 2);
    assert AllDigits(f);
    ParseFloatDecimal(NatToString(h / 2), f);
  }

  /** The number with the stripped rendering of q as its whole part and a fraction of nothing or
      '5' is worth q or q + 0.5. */
  lemma HalfNumberValue(q: nat, f: string)
    requires f == "" || f == "5"
    ensures Value(Finite(false, StripLeadingZeros(NatToString(q)), f)) == q as real + (if f == [] then 0.0 else 0.5)
  {
    StripNatToString(q);
    var w := StripLeadingZeros(NatToString(q));
    if f == [] {
      calc {
        Value(Finite(false, w, f));
        DecValue(w) as real + DecValue(f) as real / Pow10(0) as real;
        q as real + 0.0 / 1.0;
      }
    } else {
      assert DecValue(f) == 5 by { assert f[..0] == []; }
      assert Pow10(1) == 10;
      calc {
        Value(Finite(false, w, f));
        DecValue(w) as real + DecValue(f) as real / Pow10(1) as real;
        q as real + 5.0 / 10.0;
      }
    }
  }

  /** That number prints as the rendering of q followed by its fraction. */
  lemma HalfNumberText(q: nat, f: string)
    ensures NumberToString(Finite(false, StripLeadingZeros(NatToString(q)), f))
      == NatToString(q) + (if f == [] then "" else "." + f)
  {
    var t := NatToString(q);
    NatToStringDigits(q);
    StripNatToString(q);
    if q == 0 {
      assert t == "0";
    }
    NumberToStringWhole(t, StripLeadingZeros(t), f);
  }


  /** parseFloat reads the printed text back as exactly h / 2, and String() of that number gives
      the same text: the third column of an exported row holds the Letterboxd rating. */
  lemma HalfStarsTextValue(h: nat)
    ensures ParseFloat(HalfStarsText(h)).Finite?
    ensures Value(ParseFloat(HalfStarsText(h))) == h as real / 2.0
    ensures NumberToString(ParseFloat(HalfStarsText(h))) == HalfStarsText(h)
  {
    HalfStarsParse(h);
    HalfNumberValue(h / 2, HalfDigits(h));
    HalfNumberText(h / 2, HalfDigits(h));
  }


}
