/** The `winner` field validator of a movie record: a blank string is
    `False`, "yes"/"no" in any letter case are `True`/`False`, any other
    string is rejected, and a non-string value passes through untouched. */
module Winner {
  import opened Wrappers

  /** The raw field value: a string from the CSV, or an already-typed value. */
  datatype RawWinner<T> = Text(text: string) | NonText(value: T)

  /** What the validator hands on: a parsed flag or the unchanged value. */
  datatype WinnerValue<T> = Flag(flag: bool) | Unchanged(value: T)

  const WinnerError: string := "winner must be 'Yes' or 'No'"

  /** The ASCII characters `str.strip()` removes. */
  predicate IsSpace(c: char) {
    c == ' ' || c == '\t' || c == '\n' || c == '\r' || c == '\U{000B}' || c == '\U{000C}' ||
    ('\U{001C}' <= c <= '\U{001F}')
  }

  /** Nothing but whitespace (the empty string included). */
  predicate IsBlank(s: string) {
    forall i :: 0 <= i < |s| ==> IsSpace(s[i])
  }

  /** Number of leading whitespace characters. */
  function LeadingSpaces(s: string): (k: nat)
    ensures k <= |s|
    ensures forall i :: 0 <= i < k ==> IsSpace(s[i])
    ensures k < |s| ==> !IsSpace(s[k])
  {
    if |s| > 0 && IsSpace(s[0]) then 1 + LeadingSpaces(s[1..]) else 0
  }

  /** Number of trailing whitespace characters. */
  function TrailingSpaces(s: string): (k: nat)
    ensures k <= |s|
    ensures forall i :: |s| - k <= i < |s| ==> IsSpace(s[i])
    ensures k < |s| ==> !IsSpace(s[|s| - k - 1])
  {
    if |s| > 0 && IsSpace(s[|s| - 1]) then 1 + TrailingSpaces(s[..|s| - 1]) else 0
  }

  /** `str.strip()`: drop whitespace from both ends. */
  function Strip(s: string): (t: string)
    ensures |t| > 0 ==> !IsSpace(t[0]) && !IsSpace(t[|t| - 1])
  {
    var front := s[LeadingSpaces(s)..];
    front[..|front| - TrailingSpaces(front)]
  }

  /** Stripping leaves nothing exactly when the string is blank. */
  lemma StripEmptyIffBlank(s: string)
    ensures Strip(s) == "" <==> IsBlank(s)
  {
    var k := LeadingSpaces(s);
    var front := s[k..];
    var m := TrailingSpaces(front);
    if Strip(s) == "" {
      assert k == |s|;
    } else {
      assert !IsSpace(s[k]);
    }
  }

  /** ASCII `str.lower()` on one character. */
  function LowerChar(c: char): char {
    if 'A' <= c <= 'Z' then (c as int - 'A' as int + 'a' as int) as char else c
  }

  /** ASCII `str.upper()` on one character. */
  function UpperChar(c: char): char {
    if 'a' <= c <= 'z' then (c as int - 'a' as int + 'A' as int) as char else c
  }

  /** `str.lower()`. */
  function Lower(s: string): (t: string)
    ensures |t| == |s|
  {
    seq(|s|, i requires 0 <= i < |s| => LowerChar(s[i]))
  }

  /** `s` spells the lower-case word `w`, each letter in either case. */
  predicate SpellsIgnoringCase(s: string, w: string) {
    |s| == |w| && forall i :: 0 <= i < |s| ==> s[i] == w[i] || s[i] == UpperChar(w[i])
  }

  /** Lower-casing `s` gives the lower-case word `w` exactly when `s` spells `w`
      in some mix of letter cases. */
  lemma LowerMatchesWord(s: string, w: string)
    requires forall i :: 0 <= i < |w| ==> 'a' <= w[i] <= 'z'
    ensures Lower(s) == w <==> SpellsIgnoringCase(s, w)
  {
    if SpellsIgnoringCase(s, w) {
      assert forall i :: 0 <= i < |s| ==> Lower(s)[i] == w[i];
    }
    if Lower(s) == w {
      forall i | 0 <= i < |s|
        ensures s[i] == w[i] || s[i] == UpperChar(w[i])
      {
        assert LowerChar(s[i]) == w[i];
      }
    }
  }

  /** `convert_winner`: the validator run on the raw field before typing. */
  function ConvertWinner<T>(v: RawWinner<T>): (r: Result<WinnerValue<T>, string>)
    ensures v.NonText? ==> r == Success(Unchanged(v.value))
    ensures v.Text? && IsBlank(v.text) ==> r == Success(Flag(false))
    ensures v.Text? && SpellsIgnoringCase(v.text, "yes") ==> r == Success(Flag(true))
    ensures v.Text? && SpellsIgnoringCase(v.text, "no") ==> r == Success(Flag(false))
    ensures v.Text? ==>
              (r.Failure? <==> !IsBlank(v.text) && !SpellsIgnoringCase(v.text, "yes") && !SpellsIgnoringCase(v.text, "no"))
    ensures r.Failure? ==> r.error == WinnerError
  {
    match v
    case NonText(x) => Success(Unchanged(x))
    case Text(s) =>
      StripEmptyIffBlank(s);
      LowerMatchesWord(s, "yes");
      LowerMatchesWord(s, "no");
      if Strip(s) == "" then Success(Flag(false))
      else if Lower(s) == "yes" then Success(Flag(true))
      else if Lower(s) == "no" then Success(Flag(false))
      else Failure(WinnerError)
  }

  /** Whitespace is not stripped before the yes/no comparison, and only
      three- and two-letter words are accepted: so " yes", "True" and "False"
      are all rejected. */
  lemma OnlyYesNoSpellings(s: string)
    requires !IsBlank(s) && |s| != 2 && |s| != 3
    ensures ConvertWinner<bool>(Text(s)).Failure?
  {
  }

  lemma PaddedAndBooleanWordsRejected()
    ensures ConvertWinner<bool>(Text(" yes")).Failure?
    ensures ConvertWinner<bool>(Text("True")).Failure?
    ensures ConvertWinner<bool>(Text("False")).Failure?
  {
    assert !IsSpace(" yes"[1]) && !IsSpace("True"[0]) && !IsSpace("False"[0]);
    OnlyYesNoSpellings(" yes");
    OnlyYesNoSpellings("True");
    OnlyYesNoSpellings("False");
  }

  /** Accepted spellings: yes/no in several letter cases, and blanks. */
  lemma AcceptedSpellings()
    ensures ConvertWinner<bool>(Text("yes")) == Success(Flag(true))
    ensures ConvertWinner<bool>(Text("Yes")) == Success(Flag(true))
    ensures ConvertWinner<bool>(Text("NO")) == Success(Flag(false))
    ensures ConvertWinner<bool>(Text("")) == Success(Flag(false))
    ensures ConvertWinner<bool>(Text(" \t")) == Success(Flag(false))
  {
    assert SpellsIgnoringCase("yes", "yes");
    assert SpellsIgnoringCase("Yes", "yes");
    assert SpellsIgnoringCase("NO", "no");
  }
}
