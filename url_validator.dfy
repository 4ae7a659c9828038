/** URL and alias validation (services/url_validator.go). Both functions report
    failures with `errors.New`, so their errors are plain (Errors.Other) values.
    Their texts are the sentinel messages, which is why they are written here as
    `Other(<sentinel>.message)`; they are not the sentinels themselves. */
module Validation {
  import opened Wrappers
  import opened GoRuntime
  import opened Errors

  /** What `url.Parse` reports: an error, or the scheme and host it found. The
      parser is a parameter of ValidateURL; nothing is assumed about it. */
  datatype ParsedUrl = ParseError | Parsed(scheme: string, host: string)

  const MinAliasLength: nat := 3
  const MaxAliasLength: nat := 20

  /** The URL that ValidateURL parses and returns: unchanged when it starts with
      "http://" or "https://", otherwise with "https://" put in front. */
  function Normalize(urlStr: string): (u: string)
    ensures HasPrefix(u, "http://") || HasPrefix(u, "https://")
    ensures HasPrefix(urlStr, "http://") || HasPrefix(urlStr, "https://") ==> u == urlStr
    ensures !(HasPrefix(urlStr, "http://") || HasPrefix(urlStr, "https://")) ==> u == "https://" + urlStr
  {
    if !HasPrefix(urlStr, "http://") && !HasPrefix(urlStr, "https://") then
      var u := "https://" + urlStr;
      assert u[..|"https://"|] == "https://";
      u
    else urlStr
  }

  /** ValidateURL: succeeds with the normalised URL exactly when the parser
      accepts it and finds both a scheme and a host; otherwise fails with the
      parse error or with the missing-scheme-or-host error. */
  function ValidateURL(urlStr: string, parse: string -> ParsedUrl): (r: Result<string>)
    ensures r.Ok? <==> parse(Normalize(urlStr)).Parsed? && parse(Normalize(urlStr)).scheme != ""
                       && parse(Normalize(urlStr)).host != ""
    ensures r.Ok? ==> r.value == Normalize(urlStr)
    ensures r.Ok? ==> HasPrefix(r.value, "http://") || HasPrefix(r.value, "https://")
    ensures r.Err? && parse(Normalize(urlStr)).ParseError? ==> r.error == Other(ErrInvalidURLFormat.message)
    ensures r.Err? && parse(Normalize(urlStr)).Parsed? ==> r.error == Other(ErrInvalidURLScheme.message)
  {
    var u := Normalize(urlStr);
    match parse(u)
    case ParseError => Err(Other(ErrInvalidURLFormat.message))
    case Parsed(scheme, host) =>
      if scheme == "" || host == "" then Err(Other(ErrInvalidURLScheme.message))
      else Ok(u)
  }

  /** Normalisation is idempotent: validating an accepted URL again accepts it
      unchanged. */
  lemma ValidateURLIdempotent(urlStr: string, parse: string -> ParsedUrl)
    requires ValidateURL(urlStr, parse).Ok?
    ensures ValidateURL(ValidateURL(urlStr, parse).value, parse) == ValidateURL(urlStr, parse)
  {
  }

  /** The characters an alias may contain: a-z, A-Z, 0-9 and '-'. */
  predicate IsAliasChar(c: char)
  {
    ('a' <= c <= 'z') || ('A' <= c <= 'Z') || ('0' <= c <= '9') || c == '-'
  }

  /** ValidateAlias: Nil when the alias is acceptable. The empty alias is
      accepted; otherwise the byte length is checked first and then the
      characters. */
  function ValidateAlias(alias: string): (e: Error)
    ensures e == Nil || e == Other(ErrInvalidAliasLength.message) || e == Other(ErrInvalidAliasChars.message)
  {
    if alias == "" then Nil
    else if Utf8Length(alias) < MinAliasLength || Utf8Length(alias) > MaxAliasLength then
      Other(ErrInvalidAliasLength.message)
    else if exists i :: 0 <= i < |alias| && !IsAliasChar(alias[i]) then
      Other(ErrInvalidAliasChars.message)
    else Nil
  }

  /** The length error comes first, and is decided on the byte length. */
  lemma AliasLengthCheckedFirst(alias: string)
    requires alias != "" && (Utf8Length(alias) < MinAliasLength || Utf8Length(alias) > MaxAliasLength)
    ensures ValidateAlias(alias) == Other(ErrInvalidAliasLength.message)
  {
  }

  /** An alias is accepted exactly when it is empty, or has 3 to 20 characters
      all of which are letters, digits or hyphens. Accepted aliases are ASCII, so
      byte and character counts agree on them. */
  lemma AliasAcceptedIff(alias: string)
    ensures ValidateAlias(alias) == Nil <==>
      alias == "" || (MinAliasLength <= |alias| <= MaxAliasLength && forall i :: 0 <= i < |alias| ==> IsAliasChar(alias[i]))
  {
    if forall i :: 0 <= i < |alias| ==> IsAliasChar(alias[i]) {
      AsciiLength(alias);
    }
  }

  /** A non-empty alias of valid length with one bad character gets the
      character error. */
  lemma AliasCharsChecked(alias: string, i: nat)
    requires MinAliasLength <= Utf8Length(alias) <= MaxAliasLength
    requires i < |alias| && !IsAliasChar(alias[i])
    ensures ValidateAlias(alias) == Other(ErrInvalidAliasChars.message)
  {
    var n := Utf8Length(alias);
    assert MinAliasLength <= n <= MaxAliasLength;
    assert alias != "";
    assert !IsAliasChar(alias[i]);
  }

  /** Byte length, not character count: two accented letters are four bytes, so
      "éé" passes the length check and fails on its characters, while a
      two-letter ASCII alias fails on length. */
  lemma AliasByteLengthExamples()
    ensures ValidateAlias("ab") == Other(ErrInvalidAliasLength.message)
    ensures ValidateAlias("éé") == Other(ErrInvalidAliasChars.message)
  {
    assert Utf8Length("éé") == 4;
    assert !IsAliasChar("éé"[0]);
  }

  /** A typical alias with letters, digits and a hyphen is accepted. */
  lemma AliasAcceptedExample()
    ensures ValidateAlias("my-alias123") == Nil
  {
    var alias := "my-alias123";
    assert forall i :: 0 <= i < |alias| ==> IsAliasChar(alias[i]);
    AliasAcceptedIff(alias);
  }

  /** Because the validator returns plain errors, the HTTP layer reports every
      validation failure as 500, although the sentinels it matches in text carry
      400. */
  lemma ValidationErrorsAre500(urlStr: string, parse: string -> ParsedUrl, alias: string)
    ensures ValidateURL(urlStr, parse).Err? ==> GetStatusCodeFromError(ValidateURL(urlStr, parse).error) == StatusInternalServerError
    ensures GetStatusCodeFromError(ValidateAlias(alias)) == StatusInternalServerError
  {
  }
}
