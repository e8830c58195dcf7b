/** The two pure naming rules of `QuestionStorage` (extractor/storage.py):
    `_sanitize_filename` (lines 38-57) and the question file name of
    `save_question` (line 96). */
module Storage {
  import opened Common

  /** The characters `[<>:"/\\|?*]` that cannot appear in a file name. */
  predicate IsInvalidChar(c: char) {
    c == '<' || c == '>' || c == ':' || c == '"' || c == '/' || c == '\\' || c == '|' || c == '?' || c == '*'
  }

  /** The longest name the sanitiser keeps. */
  const MaxNameLength: nat := 200

  /** `re.sub(r'[<>:"/\\|?*]', "_", s)`: no invalid character is left, every
      valid one stays in place, and each invalid one becomes "_". */
  function ReplaceInvalid(s: string): (r: string)
    ensures |r| == |s|
    ensures forall i :: 0 <= i < |s| ==> !IsInvalidChar(r[i])
    ensures forall i :: 0 <= i < |s| && !IsInvalidChar(s[i]) ==> r[i] == s[i]
    ensures forall i :: 0 <= i < |s| && IsInvalidChar(s[i]) ==> r[i] == '_'
  {
    seq(|s|, i requires 0 <= i < |s| => if IsInvalidChar(s[i]) then '_' else s[i])
  }

  /** The substitution leaves a text alone exactly when it has no invalid
      character. */
  lemma ReplaceInvalidFixedIff(s: string)
    ensures ReplaceInvalid(s) == s <==> forall i :: 0 <= i < |s| ==> !IsInvalidChar(s[i])
  {
    if ReplaceInvalid(s) == s {
      forall i | 0 <= i < |s| ensures !IsInvalidChar(s[i]) {
        assert ReplaceInvalid(s)[i] == s[i];
      }
    }
  }

  /** `s.replace(target, "_")` for a one-character target: the target is gone
      (unless it is "_" itself), every other character stays in place, and
      each occurrence becomes "_". */
  function ReplaceChar(s: string, target: char): (r: string)
    ensures |r| == |s|
    ensures target != '_' ==> forall i :: 0 <= i < |s| ==> r[i] != target
    ensures forall i :: 0 <= i < |s| && s[i] != target ==> r[i] == s[i]
    ensures forall i :: 0 <= i < |s| && s[i] == target ==> r[i] == '_'
  {
    seq(|s|, i requires 0 <= i < |s| => if s[i] == target then '_' else s[i])
  }

  /** The follow-up `.replace("/", "_").replace("\\", "_")` finds nothing left to
      replace: the regex already removed both separators. */
  lemma SeparatorPassIsNoOp(s: string)
    ensures ReplaceChar(ReplaceChar(ReplaceInvalid(s), '/'), '\\') == ReplaceInvalid(s)
  {
  }

  /** `_sanitize_filename`. */
  function Sanitize(name: string): (r: string)
    ensures |r| > 0
    ensures forall i :: 0 <= i < |r| ==> !IsInvalidChar(r[i])
    ensures |name| == 0 ==> r == "unknown"
    ensures |name| > 0 ==> |r| == if |name| < MaxNameLength then |name| else MaxNameLength
    ensures |name| > 0 ==> forall i :: 0 <= i < |r| ==> (if IsInvalidChar(name[i]) then r[i] == '_' else r[i] == name[i])
  {
    var replaced := ReplaceChar(ReplaceChar(ReplaceInvalid(name), '/'), '\\');
    var cut := if |replaced| > MaxNameLength then replaced[..MaxNameLength] else replaced;
    if |cut| == 0 then "unknown" else cut
  }

  /** A sanitised name is left alone by a second sanitisation. */
  lemma SanitizeIdempotent(name: string)
    ensures Sanitize(Sanitize(name)) == Sanitize(name)
  {
    var r := Sanitize(name);
    var again := Sanitize(r);
    assert |again| == |r|;
    forall i | 0 <= i < |r| ensures again[i] == r[i] {
    }
  }

  /** A name already short and clean is kept verbatim. */
  lemma SanitizeKeepsCleanNames(name: string)
    requires 0 < |name| <= MaxNameLength
    requires forall i :: 0 <= i < |name| ==> !IsInvalidChar(name[i])
    ensures Sanitize(name) == name
  {
  }

  // ---------------------------------------------------------------------------
  // question_NNN.json
  // ---------------------------------------------------------------------------

  /** Left-pad a numeral with zeros to width w. */
  function ZeroPad(digits: string, w: nat): (r: string)
    ensures |r| == if |digits| < w then w else |digits|
    ensures r == Zeros(|r| - |digits|) + digits
  {
    if |digits| < w then Zeros(w - |digits|) + digits else
      assert Zeros(0) + digits == digits;
      digits
  }

  /** Python's `f"{n:03d}"`: at least three characters, the sign counting
      toward the width and the zeros going after it. */
  function Format03d(n: int): (r: string)
    ensures n >= 0 ==> r == ZeroPad(NatToString(n), 3)
    ensures n < 0 ==> r == "-" + ZeroPad(NatToString(-n), 2)
    ensures |r| >= 3
  {
    if n >= 0 then ZeroPad(NatToString(n), 3) else "-" + ZeroPad(NatToString(-n), 2)
  }

  /** `f"question_{question.number:03d}.json"`. */
  function QuestionFilename(number: int): (name: string)
    ensures "question_" <= name
    ensures |name| >= |"question_"| + 3 + |".json"|
    ensures name[|name| - 5..] == ".json"
  {
    "question_" + Format03d(number) + ".json"
  }

  /** Reads the number back out of a question file name. */
  function FilenameNumber(name: string): (r: Option<int>) {
    if |name| < 14 || name[..9] != "question_" || name[|name| - 5..] != ".json" then None
    else MiddleNumber(name[9..|name| - 5])
  }

  /** Reads a possibly signed decimal numeral. */
  function MiddleNumber(middle: string): Option<int> {
    if |middle| > 0 && middle[0] == '-' then
      if AllDigits(middle[1..]) then Some(-(ValueOf(middle[1..]) as int)) else None
    else if AllDigits(middle) then Some(ValueOf(middle))
    else None
  }

  /** The part between the prefix and the extension is what gets read. */
  lemma FilenameMiddle(f: string)
    ensures FilenameNumber("question_" + f + ".json") == MiddleNumber(f)
  {
    var name := "question_" + f + ".json";
    assert name[..9] == "question_";
    assert name[|name| - 5..] == ".json";
    assert name[9..|name| - 5] == f;
  }

  /** Zero padding keeps a numeral a numeral of the same value. */
  lemma PaddedValue(d: string, w: nat)
    requires AllDigits(d)
    ensures AllDigits(ZeroPad(d, w)) && ValueOf(ZeroPad(d, w)) == ValueOf(d)
  {
    var p := ZeroPad(d, w);
    ValueOfLeadingZeros(|p| - |d|, d);
  }

  /** A non-negative number's padded numeral reads back as the number. */
  lemma PaddedNumeralValue(n: nat)
    ensures MiddleNumber(Format03d(n)) == Some(n)
  {
    var f := Format03d(n);
    var d := NatToString(n);
    PaddedValue(d, 3);
    ValueOfNatToString(n);
    assert f[0] != '-' by {
      assert f == Zeros(|f| - |d|) + d;
      if |f| - |d| > 0 { assert f[0] == '0'; } else { assert f[0] == d[0]; }
    }
  }

  /** A negative number's signed numeral reads back as the number. */
  lemma SignedNumeralValue(n: int)
    requires n < 0
    ensures MiddleNumber(Format03d(n)) == Some(n)
  {
    var d := NatToString(-n);
    var p := ZeroPad(d, 2);
    var f := "-" + p;
    assert Format03d(n) == f;
    PaddedValue(d, 2);
    ValueOfNatToString(-n);
    assert f[0] == '-' && f[1..] == p;
    assert MiddleNumber(f) == Some(-(ValueOf(p) as int));
  }

  /** The file name encodes the number faithfully. */
  lemma FilenameRoundTrip(number: int)
    ensures FilenameNumber(QuestionFilename(number)) == Some(number)
  {
    FilenameMiddle(Format03d(number));
    if number >= 0 {
      PaddedNumeralValue(number);
    } else {
      SignedNumeralValue(number);
    }
  }

  /** Distinct question numbers are saved under distinct names. */
  lemma FilenameInjective(a: int, b: int)
    requires a != b
    ensures QuestionFilename(a) != QuestionFilename(b)
  {
    FilenameRoundTrip(a);
    FilenameRoundTrip(b);
  }
}
