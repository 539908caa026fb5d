/**
 * The text clean-up steps of the code generator: removing a Markdown code
 * fence from generated code, and normalising the file name the generated
 * program is saved under. The Python string operations they use (`strip`,
 * `startswith`, `endswith`, `split(sep, 1)`, `rsplit(sep, 1)`) are modelled
 * on `string`, which is a `seq<char>`.
 */
module CodeGenerator {
  import opened Optional

  // ---------------------------------------------------------------------
  // Whitespace and stripping

  /** Python's `str.isspace` for one character; no visible ASCII character is whitespace. */
  predicate IsSpace(c: char): (b: bool)
    ensures c == ' ' || c == '\t' || c == '\n' || c == '\r' ==> b
    ensures '!' <= c <= '~' ==> !b
  {
    var n := c as int;
    (0x09 <= n <= 0x0D) || (0x1C <= n <= 0x20) || n == 0x85 || n == 0xA0
    || n == 0x1680 || (0x2000 <= n <= 0x200A) || n == 0x2028 || n == 0x2029
    || n == 0x202F || n == 0x205F || n == 0x3000
  }

  /** Neither the first nor the last character is whitespace. */
  predicate Trimmed(s: string) {
    s == [] || (!IsSpace(s[0]) && !IsSpace(s[|s| - 1]))
  }

  /** `s.lstrip()`: the suffix of `s` left after dropping its leading whitespace. */
  function LStrip(s: string): (r: string)
    ensures |r| <= |s| && r == s[|s| - |r|..]
    ensures r == [] || !IsSpace(r[0])
    ensures forall i :: 0 <= i < |s| - |r| ==> IsSpace(s[i])
  {
    if s != [] && IsSpace(s[0]) then LStrip(s[1..]) else s
  }

  /** `s.rstrip()`: the prefix of `s` left after dropping its trailing whitespace. */
  function RStrip(s: string): (r: string)
    ensures |r| <= |s| && r == s[..|r|]
    ensures r == [] || !IsSpace(r[|r| - 1])
    ensures forall i :: |r| <= i < |s| ==> IsSpace(s[i])
  {
    if s != [] && IsSpace(s[|s| - 1]) then RStrip(s[..|s| - 1]) else s
  }

  /** `s.strip()`: leading and trailing whitespace removed. */
  function Strip(s: string): (r: string)
    ensures Trimmed(r)
    ensures |r| <= |s|
  {
    RStrip(LStrip(s))
  }

  /** Stripping keeps the slice of `s` that starts right after its leading whitespace. */
  lemma StripIsSlice(s: string)
    ensures |s| - |LStrip(s)| + |Strip(s)| <= |s|
    ensures forall i :: 0 <= i < |Strip(s)| ==> Strip(s)[i] == s[|s| - |LStrip(s)| + i]
  {
    var l := LStrip(s);
    var r := RStrip(l);
    PrefixOfSuffix(s, l, r);
  }

  /** Everything after the kept slice is whitespace. */
  lemma StripDropsOnlySpace(s: string)
    ensures forall i :: |s| - |LStrip(s)| + |Strip(s)| <= i < |s| ==> IsSpace(s[i])
  {
    var l := LStrip(s);
    var r := RStrip(l);
    TrailingOfSuffix(s, l, r);
  }

  /** A prefix `r` of a suffix `l` of `s` is a slice of `s`. */
  lemma PrefixOfSuffix(s: string, l: string, r: string)
    requires |l| <= |s| && l == s[|s| - |l|..]
    requires |r| <= |l| && r == l[..|r|]
    ensures forall i :: 0 <= i < |r| ==> r[i] == s[|s| - |l| + i]
  {}

  /** What a prefix `r` of a suffix `l` of `s` leaves of `l` at the end, it leaves of `s`. */
  lemma TrailingOfSuffix(s: string, l: string, r: string)
    requires |l| <= |s| && l == s[|s| - |l|..]
    requires |r| <= |l|
    requires forall i :: |r| <= i < |l| ==> IsSpace(l[i])
    ensures forall i :: |s| - |l| + |r| <= i < |s| ==> IsSpace(s[i])
  {
    var a := |s| - |l|;
    forall i | a + |r| <= i < |s| ensures IsSpace(s[i]) {
      assert s[i] == l[i - a];
    }
  }

  /** Text without surrounding whitespace is left as it is. */
  lemma StripKeepsTrimmed(s: string)
    requires Trimmed(s)
    ensures Strip(s) == s
  {
    assert LStrip(s) == s;
  }

  lemma StripIdempotent(s: string)
    ensures Strip(Strip(s)) == Strip(s)
  {
    StripKeepsTrimmed(Strip(s));
  }

  // ---------------------------------------------------------------------
  // Searching and splitting

  /** `sep` occurs in `s` starting at index `i`. */
  predicate Occurs(s: string, sep: string, i: int) {
    0 <= i && i + |sep| <= |s| && s[i..i + |sep|] == sep
  }

  /** `s.startswith(p)`. */
  predicate StartsWith(s: string, p: string) {
    Occurs(s, p, 0)
  }

  /** `s.endswith(p)`. */
  predicate EndsWith(s: string, p: string) {
    |p| <= |s| && s[|s| - |p|..] == p
  }

  /** The first occurrence of `sep` in `s` at or after `from`. */
  function FindFrom(s: string, sep: string, from: nat): (r: Option<nat>)
    requires from <= |s|
    ensures r.Some? ==> from <= r.value && Occurs(s, sep, r.value)
    ensures r.Some? ==> forall j :: from <= j < r.value ==> !Occurs(s, sep, j)
    ensures r.None? ==> forall j :: from <= j ==> !Occurs(s, sep, j)
    decreases |s| - from
  {
    if Occurs(s, sep, from) then Some(from)
    else if from + |sep| >= |s| then None
    else FindFrom(s, sep, from + 1)
  }

  /** The first occurrence of `sep` in `s` at or before `hi`, searching downwards. */
  function FindLastUpTo(s: string, sep: string, hi: nat): (r: Option<nat>)
    ensures r.Some? ==> r.value <= hi && Occurs(s, sep, r.value)
    ensures r.Some? ==> forall j :: r.value < j <= hi ==> !Occurs(s, sep, j)
    ensures r.None? ==> forall j :: 0 <= j <= hi ==> !Occurs(s, sep, j)
  {
    if Occurs(s, sep, hi) then Some(hi)
    else if hi == 0 then None
    else FindLastUpTo(s, sep, hi - 1)
  }

  /** Where `s.find(sep)` finds `sep`: its first occurrence. */
  function FindFirst(s: string, sep: string): (r: Option<nat>)
    ensures r.Some? ==> Occurs(s, sep, r.value)
    ensures r.Some? ==> forall j :: 0 <= j < r.value ==> !Occurs(s, sep, j)
    ensures r.None? <==> forall j :: !Occurs(s, sep, j)
  {
    FindFrom(s, sep, 0)
  }

  /** Where `s.rfind(sep)` finds `sep`: its last occurrence. */
  function FindLast(s: string, sep: string): (r: Option<nat>)
    ensures r.Some? ==> Occurs(s, sep, r.value)
    ensures r.Some? ==> forall j :: r.value < j ==> !Occurs(s, sep, j)
    ensures r.None? <==> forall j :: !Occurs(s, sep, j)
  {
    FindLastUpTo(s, sep, |s|)
  }

  /**
   * `s.split(sep, 1)[1]`: what follows the first occurrence of `sep`. Python
   * raises an `IndexError` when `sep` does not occur, so callers ensure it does.
   */
  function AfterFirst(s: string, sep: string): (r: string)
    requires FindFirst(s, sep).Some?
    ensures s == s[..FindFirst(s, sep).value] + sep + r
  {
    var i := FindFirst(s, sep).value;
    s[i + |sep|..]
  }

  /**
   * `s.rsplit(sep, 1)[0]`: what precedes the last occurrence of `sep`, or
   * the whole of `s` when `sep` does not occur.
   */
  function BeforeLast(s: string, sep: string): (r: string)
    ensures FindLast(s, sep).None? ==> r == s
    ensures FindLast(s, sep).Some? ==> s == r + sep + s[FindLast(s, sep).value + |sep|..]
  {
    match FindLast(s, sep)
    case None => s
    case Some(i) => s[..i]
  }

  // ---------------------------------------------------------------------
  // Fence stripping

  const PythonFence: string := "```python"
  const Fence: string := "```"

  /**
   * The clean-up applied to the model's reply: an opening "```python" fence
   * (checked first) or "```" fence is cut off together with everything from
   * the last "```" on, and the result is stripped of surrounding whitespace.
   */
  function StripFences(text: string): (code: string)
    ensures Trimmed(code)
  {
    var body :=
      if StartsWith(text, PythonFence) then BeforeLast(AfterFirst(text, PythonFence), Fence)
      else if StartsWith(text, Fence) then BeforeLast(AfterFirst(text, Fence), Fence)
      else text;
    Strip(body)
  }

  /** Text that starts with `sep` splits at that leading occurrence. */
  lemma AfterLeading(rest: string, sep: string)
    ensures FindFirst(sep + rest, sep) == Some(0)
    ensures AfterFirst(sep + rest, sep) == rest
  {
    var s := sep + rest;
    assert s[0..|sep|] == sep;
    assert Occurs(s, sep, 0);
    assert s[|sep|..] == rest;
  }

  /** "```python" opens with "```". */
  lemma PythonFenceOpensFence(text: string)
    ensures StartsWith(text, PythonFence) ==> StartsWith(text, Fence)
  {
    if |text| >= |PythonFence| {
      assert text[0..3] == text[0..9][0..3];
    }
  }

  /** Text that does not start with a fence only loses its surrounding whitespace. */
  lemma UnfencedIsOnlyStripped(text: string)
    requires !StartsWith(text, Fence)
    ensures StripFences(text) == Strip(text)
  {
    PythonFenceOpensFence(text);
  }

  /**
   * After a leading "```python", the code is what lies before the last "```"
   * of the remainder; this applies although the text also starts with "```".
   */
  lemma PythonFenceStripped(rest: string)
    ensures StartsWith(PythonFence + rest, Fence)
    ensures StripFences(PythonFence + rest) == Strip(BeforeLast(rest, Fence))
  {
    var text := PythonFence + rest;
    assert text[0..3] == Fence;
    AfterLeading(rest, PythonFence);
  }

  /** After a leading "```" that does not open "```python", the plain fence is removed the same way. */
  lemma PlainFenceStripped(rest: string)
    requires !StartsWith(Fence + rest, PythonFence)
    ensures StripFences(Fence + rest) == Strip(BeforeLast(rest, Fence))
  {
    AfterLeading(rest, Fence);
  }

  /** Without a closing "```", everything after the opening fence is kept. */
  lemma UnclosedFenceKeepsRemainder(rest: string)
    requires forall j :: !Occurs(rest, Fence, j)
    ensures StripFences(PythonFence + rest) == Strip(rest)
    ensures !StartsWith(Fence + rest, PythonFence) ==> StripFences(Fence + rest) == Strip(rest)
  {
    assert BeforeLast(rest, Fence) == rest;
    PythonFenceStripped(rest);
    if !StartsWith(Fence + rest, PythonFence) {
      PlainFenceStripped(rest);
    }
  }

  /** Whitespace before a fence stops the fence from being recognised. */
  lemma LeadingSpaceKeepsFences(text: string)
    requires text != [] && IsSpace(text[0])
    ensures StripFences(text) == Strip(text)
  {
    UnfencedIsOnlyStripped(text);
  }

  /** `lstrip` drops a run of whitespace and stops at the first other character. */
  lemma {:induction false} LStripSpacePrefix(ws: string, t: string)
    requires forall i :: 0 <= i < |ws| ==> IsSpace(ws[i])
    requires t != [] && !IsSpace(t[0])
    ensures LStrip(ws + t) == t
  {
    if ws == [] {
      assert ws + t == t;
    } else {
      assert (ws + t)[0] == ws[0];
      assert (ws + t)[1..] == ws[1..] + t;
      LStripSpacePrefix(ws[1..], t);
    }
  }

  /** Stripping any run of whitespace in front of a fence leaves the fence at the front. */
  lemma StripKeepsFenceFirst(ws: string, body: string)
    requires forall i :: 0 <= i < |ws| ==> IsSpace(ws[i])
    ensures StartsWith(Strip(ws + Fence + body), Fence)
  {
    var fenced := Fence + body;
    assert ws + Fence + body == ws + fenced;
    assert fenced[0] == '`' && fenced[2] == '`';
    LStripSpacePrefix(ws, fenced);
    var r := RStrip(fenced);
    assert |r| >= 3;
    assert r[0..3] == fenced[0..3];
  }

  /**
   * So a reply that opens with one or more whitespace characters and then a
   * fence comes back with the fence still in it.
   */
  lemma LeadingSpaceFenceSurvives(ws: string, body: string)
    requires ws != [] && forall i :: 0 <= i < |ws| ==> IsSpace(ws[i])
    ensures StartsWith(StripFences(ws + Fence + body), Fence)
  {
    assert (ws + Fence + body)[0] == ws[0];
    LeadingSpaceKeepsFences(ws + Fence + body);
    StripKeepsFenceFirst(ws, body);
  }

  // ---------------------------------------------------------------------
  // File names

  /**
   * The file name typed at the prompt, stripped: nothing when it is empty
   * (the program then picks a name from the clock), otherwise the name with
   * ".py" appended unless it already ends so.
   */
  function NormalizeFilename(input: string): (r: Option<string>)
    ensures r.None? <==> Strip(input) == []
    ensures r.Some? ==> EndsWith(r.value, ".py")
    ensures r.Some? && EndsWith(Strip(input), ".py") ==> r.value == Strip(input)
    ensures r.Some? && !EndsWith(Strip(input), ".py") ==> r.value == Strip(input) + ".py"
  {
    var name := Strip(input);
    if name == [] then None
    else if EndsWith(name, ".py") then Some(name)
    else Some(name + ".py")
  }

  /** A normalised name normalises to itself. */
  lemma NormalizeFilenameIdempotent(input: string)
    requires NormalizeFilename(input).Some?
    ensures NormalizeFilename(NormalizeFilename(input).value) == NormalizeFilename(input)
  {
    var stripped, name := Strip(input), NormalizeFilename(input).value;
    if EndsWith(stripped, ".py") {
      StripKeepsTrimmed(stripped);
    } else {
      assert name == stripped + ".py";
      assert name[0] == stripped[0] && name[|name| - 1] == 'y';
      StripKeepsTrimmed(name);
    }
  }
}
