/** `generateTexFromImage`: the key check, the data-URL prefix strip, and the
    clean-up of the model's reply (trim, code fences, math delimiters). The
    SDK call is a function from the base64 payload sent to the reply. */
module TexActions {

  datatype Option<T> = None | Some(value: T)

  /** The characters `String.prototype.trim` removes: white space and line
      terminators. */
  predicate IsSpace(c: char) {
    || c == ' ' || c == '\t' || c == '\n' || c == '\r' || c == '\U{000B}' || c == '\U{000C}'
    || c == '\U{00A0}' || c == '\U{1680}' || ('\U{2000}' <= c <= '\U{200A}')
    || c == '\U{2028}' || c == '\U{2029}' || c == '\U{202F}' || c == '\U{205F}'
    || c == '\U{3000}' || c == '\U{FEFF}'
  }

  /** No white space at either end. */
  predicate Trimmed(s: string) {
    s == [] || (!IsSpace(s[0]) && !IsSpace(s[|s| - 1]))
  }

  function TrimStart(s: string): (r: string)
    ensures |r| <= |s| && r == s[|s| - |r|..]
    ensures forall i :: 0 <= i < |s| - |r| ==> IsSpace(s[i])
    ensures r == [] || !IsSpace(r[0])
  {
    if s != [] && IsSpace(s[0]) then TrimStart(s[1..]) else s
  }

  function TrimEnd(s: string): (r: string)
    ensures |r| <= |s| && r == s[..|r|]
    ensures forall i :: |r| <= i < |s| ==> IsSpace(s[i])
    ensures r == [] || !IsSpace(r[|r| - 1])
  {
    if s != [] && IsSpace(s[|s| - 1]) then TrimEnd(s[..|s| - 1]) else s
  }

  /** `s.trim()`: the slice of `s` between its leading and its trailing white space. */
  function Trim(s: string): (r: string)
    ensures Trimmed(r) && |r| <= |s|
  {
    var t := TrimStart(s);
    var r := TrimEnd(t);
    assert r == [] || r[0] == t[0];
    r
  }

  /** Trimming a trimmed string changes nothing. */
  lemma TrimTrimmed(s: string)
    requires Trimmed(s)
    ensures Trim(s) == s
  {
  }

  predicate StartsWith(s: string, p: string) {
    |p| <= |s| && s[..|p|] == p
  }

  predicate EndsWith(s: string, p: string) {
    |p| <= |s| && s[|s| - |p|..] == p
  }

  /** `s.replace(/^p/, "")` for a literal `p`. */
  function StripPrefix(s: string, p: string): (r: string)
    ensures StartsWith(s, p) ==> s == p + r
    ensures !StartsWith(s, p) ==> r == s
  {
    if StartsWith(s, p) then s[|p|..] else s
  }

  /** `s.replace(/p$/, "")` for a literal `p`. */
  function StripSuffix(s: string, p: string): (r: string)
    ensures EndsWith(s, p) ==> s == r + p
    ensures !EndsWith(s, p) ==> r == s
  {
    if EndsWith(s, p) then s[..|s| - |p|] else s
  }

  // ---------------------------------------------------------------------------
  // The data-URL prefix

  /** `\w`: an ASCII letter, digit or underscore. */
  predicate IsWord(c: char) {
    ('a' <= c <= 'z') || ('A' <= c <= 'Z') || ('0' <= c <= '9') || c == '_'
  }

  /** `p` is a whole match of `^data:image\/\w+;base64,`. */
  predicate IsDataUrlPrefix(p: string) {
    && |p| > 19
    && p[..11] == "data:image/" && p[|p| - 8..] == ";base64,"
    && forall i :: 11 <= i < |p| - 8 ==> IsWord(p[i])
  }

  /** The number of word characters at the start of `s`. */
  function WordRun(s: string): (n: nat)
    ensures n <= |s| && (forall i :: 0 <= i < n ==> IsWord(s[i])) && (n < |s| ==> !IsWord(s[n]))
  {
    if s != [] && IsWord(s[0]) then 1 + WordRun(s[1..]) else 0
  }

  /** `imageBase64.replace(/^data:image\/\w+;base64,/, "")`. */
  function StripDataUrl(s: string): (r: string)
    ensures (exists n :: 0 <= n <= |s| && IsDataUrlPrefix(s[..n]) && r == s[n..])
         || (r == s && forall n :: 0 <= n <= |s| ==> !IsDataUrlPrefix(s[..n]))
  {
    if StartsWith(s, "data:image/") then
      var k := WordRun(s[11..]);
      if k >= 1 && StartsWith(s[11 + k..], ";base64,") then
        assert IsDataUrlPrefix(s[..11 + k + 8]);
        s[11 + k + 8..]
      else
        NoDataUrlPrefix(s, k);
        s
    else
      s
  }

  /** When the word run after "data:image/" is empty or not followed by
      ";base64,", no prefix of `s` matches. */
  lemma NoDataUrlPrefix(s: string, k: nat)
    requires StartsWith(s, "data:image/") && k == WordRun(s[11..])
    requires !(k >= 1 && StartsWith(s[11 + k..], ";base64,"))
    ensures forall n :: 0 <= n <= |s| ==> !IsDataUrlPrefix(s[..n])
  {
    forall n | 0 <= n <= |s| && IsDataUrlPrefix(s[..n])
      ensures false
    {
      DataUrlRun(s, n, k);
    }
  }

  /** In a matching prefix of length `n`, the word characters run exactly to `n - 8`. */
  lemma DataUrlRun(s: string, n: int, k: nat)
    requires 0 <= n <= |s| && IsDataUrlPrefix(s[..n]) && k == WordRun(s[11..])
    ensures k == n - 19
  {
    var p := s[..n];
    forall i | 0 <= i < n - 19
      ensures IsWord(s[11..][i])
    {
      assert s[11..][i] == p[11 + i];
    }
    assert s[11..][n - 19] == p[n - 8] == ';';
  }

  /** A string has at most one prefix the pattern matches, so the strip removes
      it at most once and only at the start. */
  lemma DataUrlPrefixUnique(s: string, n: int, m: int)
    requires 0 <= n <= |s| && 0 <= m <= |s|
    requires IsDataUrlPrefix(s[..n]) && IsDataUrlPrefix(s[..m])
    ensures n == m
  {
    var k := WordRun(s[11..]);
    DataUrlRun(s, n, k);
    DataUrlRun(s, m, k);
  }

  // ---------------------------------------------------------------------------
  // Cleaning the reply

  const Fence: string := "```"
  const LatexFence: string := "```latex"

  /** The code-fence step, applied to the trimmed reply. */
  function StripFences(t: string): (r: string)
    ensures StartsWith(t, LatexFence) ==> r == Trim(StripSuffix(t[|LatexFence|..], Fence))
    ensures !StartsWith(t, LatexFence) && StartsWith(t, Fence) ==> r == Trim(StripSuffix(t[|Fence|..], Fence))
    ensures !StartsWith(t, Fence) ==> r == t
  {
    if StartsWith(t, LatexFence) then Trim(StripSuffix(StripPrefix(t, LatexFence), Fence))
    else if StartsWith(t, Fence) then Trim(StripSuffix(StripPrefix(t, Fence), Fence))
    else t
  }

  /** One delimiter step: drop one leading `open` and one trailing `close`, each
      only if present, then trim. */
  function StripDelimiters(t: string, open: string, close: string): (r: string)
    ensures Trimmed(r)
    ensures !StartsWith(t, open) && !EndsWith(t, close) && Trimmed(t) ==> r == t
  {
    var r := Trim(StripSuffix(StripPrefix(t, open), close));
    assert !StartsWith(t, open) && !EndsWith(t, close) && Trimmed(t) ==> r == t by {
      if !StartsWith(t, open) && !EndsWith(t, close) && Trimmed(t) {
        TrimTrimmed(t);
      }
    }
    r
  }

  /** The three delimiter steps: `\[ \]`, then `$$`, then `$`. */
  function StripMath(t: string): (r: string)
    ensures Trimmed(r)
  {
    StripDelimiters(StripDelimiters(StripDelimiters(t, "\\[", "\\]"), "$$", "$$"), "$", "$")
  }

  /** The whole clean-up of the reply text. */
  function CleanTex(text: string): (r: string)
    ensures Trimmed(r)
  {
    StripMath(StripFences(Trim(text)))
  }

  /** Neither end of `t` carries a delimiter. */
  predicate NoDelimiters(t: string) {
    && !StartsWith(t, "\\[") && !EndsWith(t, "\\]")
    && !StartsWith(t, "$") && !EndsWith(t, "$")
  }

  /** A string that starts with `p` starts with every prefix of `p`. */
  lemma PrefixOfPrefix(t: string, p: string, k: nat)
    requires k <= |p|
    ensures StartsWith(t, p) ==> StartsWith(t, p[..k])
  {
    if StartsWith(t, p) {
      assert t[..k] == t[..|p|][..k];
    }
  }

  /** A string that ends with `p` ends with every suffix of `p`. */
  lemma SuffixOfSuffix(t: string, p: string, k: nat)
    requires k <= |p|
    ensures EndsWith(t, p) ==> EndsWith(t, p[|p| - k..])
  {
    if EndsWith(t, p) {
      assert t[|t| - k..] == t[|t| - |p|..][|p| - k..];
    }
  }

  lemma MathUnchanged(t: string)
    requires Trimmed(t) && NoDelimiters(t)
    ensures StripMath(t) == t
  {
    assert StripDelimiters(t, "\\[", "\\]") == t;
    PrefixOfPrefix(t, "$$", 1);
    SuffixOfSuffix(t, "$$", 1);
    assert "$$"[..1] == "$" && "$$"[1..] == "$";
    assert StripDelimiters(t, "$$", "$$") == t;
  }

  /** A reply already trimmed and free of fences and delimiters at its ends is
      returned as it is. */
  lemma CleanInputUnchanged(text: string)
    requires Trimmed(text) && !StartsWith(text, Fence) && NoDelimiters(text)
    ensures CleanTex(text) == text
  {
    TrimTrimmed(text);
    assert StripFences(text) == text;
    MathUnchanged(text);
  }

  /** The answer the prompt asks for, `\frac{1}{2}`, comes through untouched. */
  lemma FracUnchanged()
    ensures CleanTex("\\frac{1}{2}") == "\\frac{1}{2}"
  {
    var t := "\\frac{1}{2}";
    assert t[..1] == "\\" && t[..2] == "\\f" && t[..3] == "\\fr";
    assert t[|t| - 1..] == "}" && t[|t| - 2..] == "2}";
    CleanInputUnchanged(t);
  }

  /** Trimming a non-empty trimmed string padded by one newline on each side
      gives the string back. */
  lemma PaddedTrim(e: string)
    requires Trimmed(e) && e != []
    ensures Trim("\n" + e + "\n") == e
  {
    var u := e + "\n";
    assert u[0] == e[0];
    assert ("\n" + u)[1..] == u;
    assert TrimStart("\n" + e + "\n") == u by {
      assert "\n" + e + "\n" == "\n" + u;
    }
    assert u[..|u| - 1] == e;
  }

  /** A reply in a latex code fence, the expression on its own line, is reduced
      to the bare expression. */
  lemma FencedReply(e: string)
    requires Trimmed(e) && e != [] && NoDelimiters(e)
    ensures CleanTex(LatexFence + "\n" + e + "\n" + Fence) == e
  {
    var t := LatexFence + "\n" + e + "\n" + Fence;
    assert t[0] == LatexFence[0] == '`';
    assert t[|t| - 1] == Fence[2] == '`';
    FenceStripped(e);
    CleanTexSteps(t, e);
  }

  /** The fence step on such a reply leaves the expression. */
  lemma FenceStripped(e: string)
    requires Trimmed(e) && e != []
    ensures StripFences(LatexFence + "\n" + e + "\n" + Fence) == e
  {
    var body := "\n" + e + "\n";
    var rest := body + Fence;
    var t := LatexFence + rest;
    assert LatexFence + "\n" + e + "\n" + Fence == t;
    assert StartsWith(t, LatexFence) && t[|LatexFence|..] == rest by {
      assert t[..|LatexFence|] == LatexFence;
    }
    assert StripSuffix(rest, Fence) == body by {
      assert rest[|rest| - |Fence|..] == Fence && rest[..|rest| - |Fence|] == body;
    }
    PaddedTrim(e);
  }

  /** A trimmed reply whose fence step leaves a delimiter-free expression is
      cleaned to that expression. */
  lemma CleanTexSteps(t: string, u: string)
    requires Trimmed(t) && StripFences(t) == u && Trimmed(u) && NoDelimiters(u)
    ensures CleanTex(t) == u
  {
    TrimTrimmed(t);
    MathUnchanged(u);
  }

  // ---------------------------------------------------------------------------
  // The server action

  /** The SDK's answer: a first content block of type text, a first block of
      another type, or a thrown error with its message. */
  datatype Reply = TextBlock(text: string) | OtherBlock | Thrown(message: string)

  datatype TexResult = TexResult(tex: string, error: Option<string>)

  const MissingKey: string := "ANTHROPIC_API_KEY is not set on the server."
  const UnexpectedFormat: string := "Unexpected response format from Claude"
  const ProcessingFailed: string := "Failed to process image."

  /** `error.message || "Failed to process image."`. */
  function ErrorText(message: string): (e: string)
    ensures e != ""
    ensures message != "" ==> e == message
  {
    if message == "" then ProcessingFailed else message
  }

  /** `generateTexFromImage(imageBase64)`; `apiKey` is the environment variable,
      empty when unset, and `send` the SDK call on the payload. */
  function GenerateTexFromImage(apiKey: string, imageBase64: string, send: string -> Reply): (r: TexResult)
    ensures apiKey == "" ==> r == TexResult("", Some(MissingKey))
    ensures apiKey != "" && send(StripDataUrl(imageBase64)).TextBlock? ==>
      r == TexResult(CleanTex(send(StripDataUrl(imageBase64)).text), None)
    ensures apiKey != "" && send(StripDataUrl(imageBase64)).OtherBlock? ==>
      r == TexResult("", Some(UnexpectedFormat))
    ensures apiKey != "" && send(StripDataUrl(imageBase64)).Thrown? ==>
      r == TexResult("", Some(ErrorText(send(StripDataUrl(imageBase64)).message)))
    ensures r.error.Some? <==> r.tex == "" && (apiKey == "" || !send(StripDataUrl(imageBase64)).TextBlock?)
    ensures Trimmed(r.tex)
  {
    if apiKey == "" then TexResult("", Some(MissingKey))
    else
      match send(StripDataUrl(imageBase64))
      case TextBlock(text) => TexResult(CleanTex(text), None)
      case OtherBlock => TexResult("", Some(UnexpectedFormat))
      case Thrown(message) => TexResult("", Some(ErrorText(message)))
  }
}
