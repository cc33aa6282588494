/** Parsing the compound death-cause labels of the mortality data, such as
    "001-102 I-XXII.Todas las causas": a code, one space, then the cause's
    name. */
module Causes {
  import opened Errors

  const SingleCause := "Single cause"
  const MultipleCauses := "Multiple causes"

  /** A decimal digit. Python's `\d` on `str` also accepts the other Unicode
      decimal digits; this model recognises the ASCII ones only. */
  predicate IsDigit(c: char) {
    '0' <= c <= '9'
  }

  /** Every character is a digit. */
  ghost predicate AllDigits(s: string) {
    forall i :: 0 <= i < |s| ==> IsDigit(s[i])
  }

  /** The regular expression `\d+-\d+` matches `s[a..c]`, with the hyphen at
      position `b`. */
  ghost predicate RangeMatch(s: string, a: int, b: int, c: int) {
    && 0 <= a < b < c <= |s|
    && AllDigits(s[a..b])
    && s[b] == '-'
    && b + 1 < c
    && AllDigits(s[b + 1..c])
  }

  /** `re.findall(r'\d+-\d+', s)` is not empty: some substring is a numeric
      range token. */
  ghost predicate HasRangeToken(s: string) {
    exists a, b, c :: RangeMatch(s, a, b, c)
  }

  /** A digit, a hyphen and a digit start at position `i`. */
  predicate DigitHyphenDigitAt(s: string, i: nat)
    requires i + 3 <= |s|
  {
    IsDigit(s[i]) && s[i + 1] == '-' && IsDigit(s[i + 2])
  }

  /** Scans `s` from position `i` for a digit-hyphen-digit triple. */
  function ScanFrom(s: string, i: nat): (found: bool)
    requires i <= |s|
    ensures found <==> exists j :: i <= j && j + 3 <= |s| && DigitHyphenDigitAt(s, j)
    decreases |s| - i
  {
    if i + 3 > |s| then false
    else DigitHyphenDigitAt(s, i) || ScanFrom(s, i + 1)
  }

  /** A match of `\d+-\d+` exists exactly when a digit, a hyphen and a digit
      stand next to each other somewhere: the shortest match is enough. */
  lemma RangeTokenIffTriple(s: string)
    ensures HasRangeToken(s) <==> exists j :: 0 <= j && j + 3 <= |s| && DigitHyphenDigitAt(s, j)
  {
    if HasRangeToken(s) {
      var a, b, c :| RangeMatch(s, a, b, c);
      assert s[a..b][b - 1 - a] == s[b - 1];
      assert s[b + 1..c][0] == s[b + 1];
      assert DigitHyphenDigitAt(s, b - 1);
    }
    if j :| 0 <= j && j + 3 <= |s| && DigitHyphenDigitAt(s, j) {
      assert RangeMatch(s, j, j + 1, j + 3);
    }
  }

  /** `cause_types`: "Multiple causes" when the label holds a numeric range
      token anywhere (even a single one), "Single cause" otherwise. */
  function CauseTypes(cause: string): (r: string)
    ensures r == MultipleCauses <==> HasRangeToken(cause)
    ensures r == SingleCause <==> !HasRangeToken(cause)
  {
    RangeTokenIffTriple(cause);
    if ScanFrom(cause, 0) then MultipleCauses else SingleCause
  }

  /** The position of the first space, or the length when there is none. */
  function SpaceIndex(t: string): (i: nat)
    ensures i <= |t|
    ensures ' ' !in t[..i]
    ensures i < |t| <==> ' ' in t
    ensures i < |t| ==> t[i] == ' '
  {
    if t == [] then 0
    else if t[0] == ' ' then 0
    else
      var k := SpaceIndex(t[1..]);
      assert t[..k + 1] == [t[0]] + t[1..][..k];
      k + 1
  }

  /** `text.split(" ", 1)`: the text cut at its first space into two parts,
      or the whole text as the single part when it has no space. */
  function SplitOnce(t: string): (parts: seq<string>)
    ensures |parts| == 1 <==> ' ' !in t
    ensures |parts| == 2 <==> ' ' in t
    ensures |parts| == 1 ==> parts[0] == t
    ensures |parts| == 2 ==> parts[0] + " " + parts[1] == t
    ensures ' ' !in parts[0]
  {
    var i := SpaceIndex(t);
    if i == |t| then
      assert t[..i] == t;
      [t]
    else
      assert t[..i] + " " + t[i + 1..] == t;
      [t[..i], t[i + 1..]]
  }

  /** `cause_code`: the part before the first space, or the whole label when
      it has no space. */
  function CauseCode(t: string): (code: string)
    ensures ' ' !in code
    ensures code <= t
    ensures ' ' !in t ==> code == t
    ensures ' ' in t ==> |code| < |t| && t[|code|] == ' '
  {
    var parts := SplitOnce(t);
    assert |parts| == 2 ==> t == parts[0] + (" " + parts[1]);
    parts[0]
  }

  /** A whitespace character as Python's `str.isspace` sees it, which is what
      `str.strip()` removes: the ASCII controls tab to carriage return and
      0x1C to 0x1F, the space, and the Unicode space separators. */
  predicate IsSpace(c: char) {
    || '\t' <= c <= '\r'
    || '\U{1C}' <= c <= ' '
    || c == '\U{85}' || c == '\U{A0}' || c == '\U{1680}'
    || '\U{2000}' <= c <= '\U{200A}'
    || c == '\U{2028}' || c == '\U{2029}' || c == '\U{202F}'
    || c == '\U{205F}' || c == '\U{3000}'
  }

  /** Every character is whitespace. */
  ghost predicate AllSpace(s: string) {
    forall i :: 0 <= i < |s| ==> IsSpace(s[i])
  }

  /** Neither the first nor the last character is whitespace. */
  ghost predicate Trimmed(s: string) {
    s == [] || (!IsSpace(s[0]) && !IsSpace(s[|s| - 1]))
  }

  /** `r` is `s` with its leading and trailing whitespace removed: `s` is
      whitespace, then `r`, then whitespace, and `r` neither starts nor ends
      with whitespace. */
  ghost predicate IsStripOf(r: string, s: string) {
    && Trimmed(r)
    && exists i, j :: 0 <= i <= j <= |s| && s[i..j] == r && AllSpace(s[..i]) && AllSpace(s[j..])
  }

  /** `s` without its leading whitespace. */
  function TrimStart(s: string): (r: string)
    ensures |r| <= |s| && r == s[|s| - |r|..]
    ensures AllSpace(s[..|s| - |r|])
    ensures r == [] || !IsSpace(r[0])
  {
    if s != [] && IsSpace(s[0]) then
      var r := TrimStart(s[1..]);
      assert s[..|s| - |r|] == [s[0]] + s[1..][..|s[1..]| - |r|];
      r
    else s
  }

  /** `s` without its trailing whitespace. */
  function TrimEnd(s: string): (r: string)
    ensures |r| <= |s| && r == s[..|r|]
    ensures AllSpace(s[|r|..])
    ensures r == [] || !IsSpace(r[|r| - 1])
  {
    if s != [] && IsSpace(s[|s| - 1]) then
      var init := s[..|s| - 1];
      var r := TrimEnd(init);
      assert s == init + [s[|s| - 1]];
      assert s[|r|..] == init[|r|..] + [s[|s| - 1]];
      r
    else s
  }

  /** `str.strip()` with no argument. */
  function Strip(s: string): (r: string)
    ensures IsStripOf(r, s)
  {
    var a := TrimStart(s);
    var r := TrimEnd(a);
    StripWitness(s, a, r);
    r
  }

  /** Trimming the start, then the end, strips. */
  lemma StripWitness(s: string, a: string, r: string)
    requires a == TrimStart(s) && r == TrimEnd(a)
    ensures IsStripOf(r, s)
  {
    var i := |s| - |a|;
    SliceOfSuffix(s, i, |r|);
    assert Trimmed(r);
    assert s[i..i + |r|] == r && AllSpace(s[..i]) && AllSpace(s[i + |r|..]);
  }

  /** Slicing the suffix from `i` is slicing `s` shifted by `i`. */
  lemma SliceOfSuffix(s: string, i: nat, n: nat)
    requires i + n <= |s|
    ensures s[i..i + n] == s[i..][..n]
    ensures s[i + n..] == s[i..][n..]
  {
  }

  /** There is only one way to strip a string: any `r` that `IsStripOf`
      describes is what `Strip` returns. */
  lemma StripUnique(r: string, s: string)
    requires IsStripOf(r, s)
    ensures r == Strip(s)
  {
    var i, j :| 0 <= i <= j <= |s| && s[i..j] == r && AllSpace(s[..i]) && AllSpace(s[j..]);
    var r' := Strip(s);
    var i', j' :| 0 <= i' <= j' <= |s| && s[i'..j'] == r' && AllSpace(s[..i']) && AllSpace(s[j'..]);
    StripBounds(s, r, i, j, r', i', j');
  }

  /** What a stripping says about the characters of `s`: everything before
      and after the kept part is whitespace, and the kept part's ends are not. */
  lemma StripFacts(s: string, r: string, i: int, j: int)
    requires 0 <= i <= j <= |s| && s[i..j] == r && AllSpace(s[..i]) && AllSpace(s[j..]) && Trimmed(r)
    ensures forall k :: 0 <= k < i ==> IsSpace(s[k])
    ensures forall k :: j <= k < |s| ==> IsSpace(s[k])
    ensures r != [] ==> !IsSpace(s[i]) && !IsSpace(s[j - 1])
    ensures r == [] ==> i == j
  {
    forall k | 0 <= k < i ensures IsSpace(s[k]) {
      assert s[..i][k] == s[k];
    }
    forall k | j <= k < |s| ensures IsSpace(s[k]) {
      assert s[j..][k - j] == s[k];
    }
  }

  /** Two strippings of the same string keep the same part. */
  lemma StripBounds(s: string, r: string, i: int, j: int, r': string, i': int, j': int)
    requires 0 <= i <= j <= |s| && s[i..j] == r && AllSpace(s[..i]) && AllSpace(s[j..]) && Trimmed(r)
    requires 0 <= i' <= j' <= |s| && s[i'..j'] == r' && AllSpace(s[..i']) && AllSpace(s[j'..]) && Trimmed(r')
    ensures r == r'
  {
    StripFacts(s, r, i, j);
    StripFacts(s, r', i', j');
  }

  /** `cause_name`: the part after the first space with surrounding
      whitespace stripped. A label without a space has no second part, and
      the source's `[1]` raises. */
  function CauseName(t: string): (r: Result<string>)
    ensures r.Err? <==> ' ' !in t
    ensures r.Err? ==> r.error == NoSeparator
    ensures r.Ok? ==> Trimmed(r.value)
    ensures r.Ok? ==> exists tail :: t == CauseCode(t) + " " + tail && IsStripOf(r.value, tail)
  {
    var parts := SplitOnce(t);
    if |parts| == 1 then Err(NoSeparator)
    else
      assert t == CauseCode(t) + " " + parts[1];
      Ok(Strip(parts[1]))
  }

  /** A string with nothing to strip is its own stripping, so stripping twice
      is stripping once. */
  lemma StripTrimmed(s: string)
    requires Trimmed(s)
    ensures Strip(s) == s
  {
    assert s[0..|s|] == s && s[..0] == [] && s[|s|..] == [];
    StripUnique(s, s);
  }

  /** Stripping is idempotent. */
  lemma StripIdempotent(s: string)
    ensures Strip(Strip(s)) == Strip(s)
  {
    StripTrimmed(Strip(s));
  }

  /** Cutting a label and gluing it back: the code, one space and the
      unstripped remainder give the label again, and the name is that
      remainder stripped. */
  lemma CauseLabelSplits(t: string)
    requires ' ' in t
    ensures |CauseCode(t)| < |t|
    ensures CauseCode(t) + " " + t[|CauseCode(t)| + 1..] == t
    ensures CauseName(t) == Ok(Strip(t[|CauseCode(t)| + 1..]))
  {
    var code := CauseCode(t);
    var tail :| t == code + " " + tail && IsStripOf(CauseName(t).value, tail);
    assert t[|code| + 1..] == tail;
    StripUnique(CauseName(t).value, tail);
  }

  /** Building a label from a space-free code and a name without surrounding
      whitespace, then parsing it, gives back the code and the name. */
  lemma CauseLabelRoundTrip(code: string, name: string)
    requires ' ' !in code
    requires Trimmed(name)
    ensures CauseCode(code + " " + name) == code
    ensures CauseName(code + " " + name) == Ok(name)
  {
    var t := code + " " + name;
    assert t[|code|] == ' ';
    assert ' ' in t;
    var c := CauseCode(t);
    assert forall k :: 0 <= k < |code| ==> t[k] == code[k] && t[k] != ' ';
    assert forall k :: 0 <= k < |c| ==> t[k] == c[k] && t[k] != ' ';
    assert |c| == |code|;
    assert c == code;
    CauseLabelSplits(t);
    assert t[|code| + 1..] == name;
    StripTrimmed(name);
  }

  /** The label quoted in the helpers' documentation holds a range token. */
  lemma CauseTypesExample()
    ensures CauseTypes("001-102 I-XXII.Todas las causas") == MultipleCauses
  {
    var t := "001-102 I-XXII.Todas las causas";
    assert t[0] == '0' && t[1] == '0' && t[2] == '1' && t[3] == '-';
    assert t[4] == '1' && t[5] == '0' && t[6] == '2';
    assert t[0..3] == [t[0], t[1], t[2]];
    assert t[4..7] == [t[4], t[5], t[6]];
    assert RangeMatch(t, 0, 3, 7);
  }

  /** A label without digits holds no range token. */
  lemma CauseTypesSingleExample()
    ensures CauseTypes("I.Algunas causas") == SingleCause
  {
    var u := "I.Algunas causas";
    RangeTokenIffTriple(u);
    assert !ScanFrom(u, 0);
  }

  /** The label quoted in the helpers' documentation splits into its code
      and name; a bare code has no name. */
  lemma CauseSplitExamples()
    ensures CauseCode("001-102 I-XXII.Todas las causas") == "001-102"
    ensures CauseName("001-102 I-XXII.Todas las causas") == Ok("I-XXII.Todas las causas")
    ensures CauseName("001-102") == Err(NoSeparator)
  {
    assert "001-102 I-XXII.Todas las causas" == "001-102" + " " + "I-XXII.Todas las causas";
    var name := "I-XXII.Todas las causas";
    assert name[0] == 'I' && name[|name| - 1] == 's';
    CauseLabelRoundTrip("001-102", name);
  }
}
