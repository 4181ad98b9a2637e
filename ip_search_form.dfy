/**
 * The address check of the admin IP search form: `isValidIp`, a regular
 * expression check for IPv4 with a range check on each part, and a
 * regular expression check for full-form IPv6 plus the two literals `::1`
 * and `::`; and the guard sequence of the form's submit handler.
 */
module IpSearchForm {
  import opened Wrappers
  import opened JsStrings

  // ---------------------------------------------------------------------------
  // The two patterns
  // ---------------------------------------------------------------------------

  /** `\d` without the `u` flag: an ASCII decimal digit. */
  predicate IsDecimalDigit(c: char) {
    '0' <= c <= '9'
  }

  /** `[0-9a-fA-F]`. */
  predicate IsHexDigit(c: char) {
    IsDecimalDigit(c) || 'a' <= c <= 'f' || 'A' <= c <= 'F'
  }

  /** `\d{1,3}`. */
  predicate IsDigitGroup(s: string) {
    1 <= |s| <= 3 && forall i :: 0 <= i < |s| ==> IsDecimalDigit(s[i])
  }

  /** `[0-9a-fA-F]{1,4}`. */
  predicate IsHexGroup(s: string) {
    1 <= |s| <= 4 && forall i :: 0 <= i < |s| ==> IsHexDigit(s[i])
  }

  /** `/^(\d{1,3}\.){3}\d{1,3}$/`: exactly four dot-separated groups of one to three decimal digits. */
  predicate MatchesIpv4Pattern(s: string) {
    var parts := Split(s, '.');
    |parts| == 4 && forall i :: 0 <= i < 4 ==> IsDigitGroup(parts[i])
  }

  /** `/^([0-9a-fA-F]{1,4}:){7}[0-9a-fA-F]{1,4}$|^::1$|^::$/`: eight colon-separated hex groups, or one of two literals. */
  predicate MatchesIpv6Pattern(s: string) {
    || (var groups := Split(s, ':'); |groups| == 8 && forall i :: 0 <= i < 8 ==> IsHexGroup(groups[i]))
    || s == "::1"
    || s == "::"
  }

  /** `parseInt(part, 10)` of a string of decimal digits. */
  function DecimalValue(s: string): (n: nat)
    requires forall i :: 0 <= i < |s| ==> IsDecimalDigit(s[i])
    ensures |s| <= 1 ==> n <= 9
    ensures |s| <= 2 ==> n <= 99
    ensures |s| <= 3 ==> n <= 999
    decreases |s|
  {
    if s == [] then 0
    else
      assert IsDecimalDigit(s[|s| - 1]);
      DecimalValue(s[..|s| - 1]) * 10 + (s[|s| - 1] as int - '0' as int)
  }

  /**
   * `isValidIp`: a string of IPv4 shape is valid exactly when every part is
   * at most 255, and is never tried as IPv6; any other string is valid
   * exactly when it matches the IPv6 pattern.
   */
  predicate IsValidIp(ip: string) {
    if MatchesIpv4Pattern(ip) then
      var parts := Split(ip, '.');
      forall i :: 0 <= i < 4 ==> DecimalValue(parts[i]) <= 255
    else MatchesIpv6Pattern(ip)
  }

  // ---------------------------------------------------------------------------
  // What the check accepts
  // ---------------------------------------------------------------------------

  /** Four digit groups, each at most 255, joined with dots, are accepted. */
  lemma Ipv4Accepted(parts: seq<string>)
    requires |parts| == 4
    requires forall i :: 0 <= i < 4 ==> IsDigitGroup(parts[i]) && DecimalValue(parts[i]) <= 255
    ensures IsValidIp(Join(parts, '.'))
  {
    forall i | 0 <= i < 4 ensures '.' !in parts[i] {
      assert forall j :: 0 <= j < |parts[i]| ==> parts[i][j] != '.';
    }
    SplitJoin(parts, '.');
  }

  /** Four digit groups joined with dots are rejected as soon as one exceeds 255: the string is not retried as IPv6. */
  lemma Ipv4OutOfRangeRejected(parts: seq<string>, k: int)
    requires |parts| == 4 && 0 <= k < 4
    requires forall i :: 0 <= i < 4 ==> IsDigitGroup(parts[i])
    requires IsDigitGroup(parts[k]) && DecimalValue(parts[k]) > 255
    ensures !IsValidIp(Join(parts, '.'))
  {
    forall i | 0 <= i < 4 ensures '.' !in parts[i] {
      assert forall j :: 0 <= j < |parts[i]| ==> parts[i][j] != '.';
    }
    SplitJoin(parts, '.');
  }

  /** A string with a colon never has the IPv4 shape. */
  lemma ColonIsNotIpv4(s: string)
    requires ':' in s
    ensures !MatchesIpv4Pattern(s)
  {
    var parts := Split(s, '.');
    JoinSplit(s, '.');
    JoinChars(parts, '.', ':');
    var i :| 0 <= i < |parts| && ':' in parts[i];
    var j :| 0 <= j < |parts[i]| && parts[i][j] == ':';
    assert !IsDecimalDigit(parts[i][j]);
  }

  /** Eight hex groups joined with colons are accepted. */
  lemma Ipv6Accepted(groups: seq<string>)
    requires |groups| == 8
    requires forall i :: 0 <= i < 8 ==> IsHexGroup(groups[i])
    ensures IsValidIp(Join(groups, ':'))
  {
    forall i | 0 <= i < 8 ensures ':' !in groups[i] {
      assert forall j :: 0 <= j < |groups[i]| ==> groups[i][j] != ':';
    }
    SplitJoin(groups, ':');
    var s := Join(groups, ':');
    assert s == groups[0] + [':'] + Join(groups[1..], ':');
    assert s[|groups[0]|] == ':';
    ColonIsNotIpv4(s);
  }

  /** The two compressed literals the IPv6 pattern lists are accepted. */
  lemma LiteralsAccepted()
    ensures IsValidIp("::1") && IsValidIp("::")
  {
    ColonIsNotIpv4("::1");
    ColonIsNotIpv4("::");
  }

  /**
   * Every accepted string is one of the four accepted forms: four digit
   * groups of value at most 255 joined with dots, eight hex groups joined with
   * colons, `::1` or `::`. With `Ipv4Accepted`, `Ipv6Accepted` and
   * `LiteralsAccepted`, this characterises the check completely.
   */
  lemma ValidIpForms(s: string)
    requires IsValidIp(s)
    ensures var p := Split(s, '.');
      var g := Split(s, ':');
      || (|p| == 4 && Join(p, '.') == s && forall i :: 0 <= i < 4 ==> IsDigitGroup(p[i]) && DecimalValue(p[i]) <= 255)
      || (|g| == 8 && Join(g, ':') == s && forall i :: 0 <= i < 8 ==> IsHexGroup(g[i]))
      || s == "::1"
      || s == "::"
  {
    JoinSplit(s, '.');
    JoinSplit(s, ':');
  }

  /**
   * The only compressed IPv6 forms accepted are `::1` and `::`: any other
   * string holding `::` is rejected.
   */
  lemma CompressedIpv6Rejected(s: string, i: int)
    requires OccursAt(s, "::", i)
    requires s != "::1" && s != "::"
    ensures !IsValidIp(s)
  {
    assert s[i] == ':' && s[i + 1] == ':';
    ColonIsNotIpv4(s);
    AdjacentSeparatorsEmptyPiece(s, ':', i);
  }

  /** The form's own placeholder example, `2001:0db8::1`, is rejected. */
  lemma PlaceholderExampleRejected()
    ensures !IsValidIp("2001:0db8::1")
  {
    var s := "2001:0db8::1";
    assert s[9..11] == "::";
    CompressedIpv6Rejected(s, 9);
  }

  /** Each character of an accepted string is a hex digit, a dot or a colon. */
  lemma ValidIpAlphabet(s: string)
    requires IsValidIp(s)
    ensures forall i :: 0 <= i < |s| ==> IsHexDigit(s[i]) || s[i] == '.' || s[i] == ':'
  {
    forall i | 0 <= i < |s| ensures IsHexDigit(s[i]) || s[i] == '.' || s[i] == ':' {
      var c := s[i];
      if MatchesIpv4Pattern(s) {
        var p := Split(s, '.');
        JoinSplit(s, '.');
        JoinChars(p, '.', c);
        if c != '.' {
          var k :| 0 <= k < |p| && c in p[k];
          var j :| 0 <= j < |p[k]| && p[k][j] == c;
        }
      } else if s != "::1" && s != "::" {
        var g := Split(s, ':');
        JoinSplit(s, ':');
        JoinChars(g, ':', c);
        if c != ':' {
          var k :| 0 <= k < |g| && c in g[k];
          var j :| 0 <= j < |g[k]| && g[k][j] == c;
        }
      }
    }
  }

  /** An accepted string is 2 to 39 characters long. */
  lemma ValidIpLength(s: string)
    requires IsValidIp(s)
    ensures 2 <= |s| <= 39
  {
    if MatchesIpv4Pattern(s) {
      JoinSplit(s, '.');
      JoinLengthBounds(Split(s, '.'), '.', 1, 3);
    } else if s != "::1" && s != "::" {
      JoinSplit(s, ':');
      JoinLengthBounds(Split(s, ':'), ':', 1, 4);
    }
  }

  /** An accepted string has no whitespace, so trimming leaves it as it is. */
  lemma ValidIpTrimmed(s: string)
    requires IsValidIp(s)
    ensures forall i :: 0 <= i < |s| ==> !IsJsWhitespace(s[i])
    ensures Trim(s) == s
  {
    ValidIpAlphabet(s);
    ValidIpLength(s);
    StripNoEdge(s, IsJsWhitespace);
  }

  // ---------------------------------------------------------------------------
  // The submit handler
  // ---------------------------------------------------------------------------

  /** The outcome of a submit: one of the two error messages, or a search for an address. */
  datatype SubmitOutcome = MissingAddress | InvalidAddress | Search(address: string)

  const MissingAddressMessage: string := "Please enter an IP address"
  const InvalidAddressMessage: string := "Please enter a valid IP address (IPv4 or IPv6)"

  /** The guard sequence of `handleSubmit` on the input text. */
  function Guard(input: string): SubmitOutcome {
    var trimmed := Trim(input);
    if trimmed == "" then MissingAddress
    else if !IsValidIp(trimmed) then InvalidAddress
    else Search(trimmed)
  }

  /** The error `handleSubmit` leaves shown for an outcome. */
  function ErrorFor(outcome: SubmitOutcome): Option<string> {
    match outcome
    case MissingAddress => Some(MissingAddressMessage)
    case InvalidAddress => Some(InvalidAddressMessage)
    case Search(_) => None
  }

  /**
   * Blank input is refused before any validity check; validity is checked on
   * the trimmed input; and a search is started only for the trimmed input,
   * only when it is valid.
   */
  lemma GuardCases(input: string)
    ensures Guard(input) == MissingAddress <==> AllWhitespace(input)
    ensures Guard(input) == InvalidAddress <==> !AllWhitespace(input) && !IsValidIp(Trim(input))
    ensures Guard(input).Search? <==> IsValidIp(Trim(input))
    ensures Guard(input).Search? ==> Guard(input).address == Trim(input)
  {
    StripEmptyIff(input, IsJsWhitespace);
    if IsValidIp(Trim(input)) {
      ValidIpLength(Trim(input));
    }
  }

  /** A valid address typed without surrounding whitespace is searched for exactly as typed. */
  lemma ValidAddressSearchedAsTyped(s: string)
    requires IsValidIp(s)
    ensures Guard(s) == Search(s)
  {
    ValidIpTrimmed(s);
    ValidIpLength(s);
    assert Trim(s) == s && s != "";
  }

  /** Submitting the trimmed text gives the same outcome as submitting the text. */
  lemma GuardIgnoresSurroundingWhitespace(input: string)
    ensures Guard(Trim(input)) == Guard(input)
  {
    StripIdempotent(input, IsJsWhitespace);
  }

  /** The form's state: the text in the input and the error shown. */
  class SearchForm {
    var ip: string
    var error: Option<string>

    constructor ()
      ensures ip == "" && error == None
    {
      ip := "";
      error := None;
    }

    /** `onChange`: new text in the input clears the error. */
    method SetInput(text: string)
      modifies this
      ensures ip == text && error == None
    {
      ip := text;
      error := None;
    }

    /**
     * `handleSubmit`: clear the error, refuse blank input, refuse an invalid
     * trimmed address, else hand the trimmed address to the search (returned
     * here as `search`).
     */
    method HandleSubmit() returns (search: Option<string>)
      modifies this
      ensures ip == old(ip)
      ensures error == ErrorFor(Guard(ip))
      ensures search == (if Guard(ip).Search? then Some(Guard(ip).address) else None)
    {
      error := None;
      var trimmed := Trim(ip);
      if trimmed == "" {
        error := Some(MissingAddressMessage);
        return None;
      }
      if !IsValidIp(trimmed) {
        error := Some(InvalidAddressMessage);
        return None;
      }
      search := Some(trimmed);
    }
  }
}
