/** The argument check of the cell helpers: a client name must be one run of
    non-whitespace characters. */
module MfdpCellUtil {
  import opened PyStr
  import opened Runtime

  const ClientSpacesMessage := "Client name should contain no spaces"

  predicate NoSpaceIn(s: string) {
    forall i :: 0 <= i < |s| ==> !IsSpace(s[i])
  }

  /** `re.match(r'^\S+$', s)` succeeds: `\S+` takes a nonempty prefix of
      non-whitespace characters, and `$` holds at the end of the text or just
      before a newline that ends it. */
  predicate PatternMatches(s: string) {
    exists k :: 1 <= k <= |s| && NoSpaceIn(s[..k]) && (k == |s| || (k == |s| - 1 && s[k] == '\n'))
  }

  /** The same test read directly: the text is a nonempty run of non-whitespace
      characters, optionally followed by one newline */
  function NoSpaceName(s: string): (b: bool)
    ensures b ==> s != []
  {
    if s != [] && s[|s| - 1] == '\n' then s[..|s| - 1] != [] && NoSpaceIn(s[..|s| - 1])
    else s != [] && NoSpaceIn(s)
  }

  /** Both readings agree on every text. */
  lemma PatternMatchesIff(s: string)
    ensures PatternMatches(s) <==> NoSpaceName(s)
  {
    if PatternMatches(s) {
      var k :| 1 <= k <= |s| && NoSpaceIn(s[..k]) && (k == |s| || (k == |s| - 1 && s[k] == '\n'));
      if k == |s| {
        assert s[..k] == s;
        assert !IsSpace(s[|s| - 1]);
        assert IsSpace('\n');
      }
    }
    if NoSpaceName(s) {
      if s[|s| - 1] == '\n' {
        assert 1 <= |s| - 1 && NoSpaceIn(s[..|s| - 1]);
      } else {
        assert s[..|s|] == s;
      }
    }
  }

  /** `argument_validator`: the error messages for the client name; only a
      client that is set and nonempty is checked */
  method ArgumentValidator(client: Option<string>) returns (errors: seq<string>)
    ensures |errors| <= 1
    ensures forall i :: 0 <= i < |errors| ==> errors[i] == ClientSpacesMessage
    ensures errors == [] <==> !Truthy(client) || PatternMatches(client.value)
  {
    errors := [];
    if Truthy(client) {
      PatternMatchesIff(client.value);
      if !NoSpaceName(client.value) {
        errors := errors + [ClientSpacesMessage];
      }
    }
  }

  /** A client name ending in one newline passes the check. */
  lemma TrailingNewlinePasses()
    ensures PatternMatches("host\n")
  {
    assert NoSpaceIn("host\n"[..4]);
  }

  /** Whitespace inside, in front or doubled at the end fails it. */
  lemma WhitespaceFails()
    ensures !PatternMatches("my host")
    ensures !PatternMatches(" host")
    ensures !PatternMatches("host\n\n")
    ensures !PatternMatches("\n")
  {
    PatternMatchesIff("my host");
    assert IsSpace("my host"[2]);
    PatternMatchesIff(" host");
    assert IsSpace(" host"[0]);
    PatternMatchesIff("host\n\n");
    assert IsSpace("host\n\n"[..5][4]);
    PatternMatchesIff("\n");
  }
}
