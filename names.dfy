/**
  Node-name normalisation used when LoadNode falls back from the exact name:
  `Regex.Replace(name, @"\d", "")` removes every decimal digit, wherever it is.
*/
module Names {

  predicate IsDigit(c: char) {
    '0' <= c <= '9'
  }

  predicate HasNoDigit(s: string) {
    forall i :: 0 <= i < |s| ==> !IsDigit(s[i])
  }

  /** `s` with every digit removed and every other character kept, in order. */
  function StripDigits(s: string): (r: string)
    ensures HasNoDigit(r)
    ensures |r| <= |s|
    ensures HasNoDigit(s) ==> r == s
    ensures forall i :: 0 <= i < |r| ==> r[i] in s
  {
    if s == [] then []
    else if IsDigit(s[0]) then StripDigits(s[1..])
    else [s[0]] + StripDigits(s[1..])
  }

  /** Stripping distributes over concatenation, so digits are removed at any position. */
  lemma {:induction false} StripDigitsConcat(a: string, b: string)
    ensures StripDigits(a + b) == StripDigits(a) + StripDigits(b)
    decreases |a|
  {
    if a == [] {
      assert a + b == b;
    } else {
      assert (a + b)[0] == a[0] && (a + b)[1..] == a[1..] + b;
      StripDigitsConcat(a[1..], b);
    }
  }

  /** Stripping twice is stripping once. */
  lemma StripDigitsIdempotent(s: string)
    ensures StripDigits(StripDigits(s)) == StripDigits(s)
  {
  }

  /** Dash1 and Dash23 normalise to Dash; so does a name with a digit in the middle. */
  lemma StripDigitsExamples()
    ensures StripDigits("Dash1") == "Dash"
    ensures StripDigits("Da2sh") == "Dash"
  {
    assert "Dash1"[1..] == "ash1" && "ash1"[1..] == "sh1" && "sh1"[1..] == "h1" && "h1"[1..] == "1";
    assert "Da2sh"[1..] == "a2sh" && "a2sh"[1..] == "2sh" && "2sh"[1..] == "sh" && "sh"[1..] == "h";
  }
}
