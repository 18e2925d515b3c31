/** The `mfdp_users` module: the web user name that identifies an account, and
    the decision whether the account's desired state is already met. */
module MfdpUsers {
  import opened PyStr
  import opened Runtime
  import opened MfdpUsersUtil

  const Wildcard := "|*"
  /** `'|\*'` in the source: the unknown escape `\*` keeps its backslash */
  const EscapedWildcard := "|\\*"

  /** Every `|*`, found scanning from the left, written as `|\*` */
  function Escape(s: string): string {
    Replace(s, Wildcard, EscapedWildcard)
  }

  /** The account's identity key, `name|os_group|client` with the wildcard escaped */
  function WebUsername(name: string, osGroup: string, client: string): string {
    Escape(name + "|" + osGroup + "|" + client)
  }

  predicate NoBackslash(s: string) {
    forall i :: 0 <= i < |s| ==> s[i] != '\\'
  }

  /** The escape keeps the first character (a leading `*` is left alone) and
      never shortens the text. */
  lemma {:induction false} EscapeHead(s: string)
    ensures |Escape(s)| >= |s|
    ensures s != [] ==> Escape(s)[0] == s[0]
    decreases |s|
  {
    if |s| >= 2 {
      if s[..2] == Wildcard {
        EscapeHead(s[2..]);
      } else {
        EscapeHead(s[1..]);
      }
    }
  }

  /** The escape changes the text exactly when it holds a `|*`. */
  lemma {:induction false} EscapeChangesIff(s: string)
    ensures Escape(s) == s <==> !Contains(s, Wildcard)
    ensures Contains(s, Wildcard) ==> |Escape(s)| > |s|
    decreases |s|
  {
    if |s| >= 2 {
      if s[..2] == Wildcard {
        EscapeHead(s[2..]);
      } else {
        EscapeChangesIff(s[1..]);
        assert Escape(s) == [s[0]] + Escape(s[1..]);
        assert s == [s[0]] + s[1..];
      }
    }
  }

  /** Undoing the escape gives the text back, provided it held no backslash
      (the escape only inserts a backslash between `|` and `*`). */
  lemma {:induction false} EscapeRoundTrip(s: string)
    requires NoBackslash(s)
    ensures Replace(Escape(s), EscapedWildcard, Wildcard) == s
    decreases |s|
  {
    if |s| < 2 {
      assert Escape(s) == s;
    } else if s[..2] == Wildcard {
      var t := Escape(s[2..]);
      EscapeRoundTrip(s[2..]);
      assert Escape(s) == EscapedWildcard + t;
      assert (EscapedWildcard + t)[..3] == EscapedWildcard;
      assert (EscapedWildcard + t)[3..] == t;
      assert s == Wildcard + s[2..];
    } else {
      var t := Escape(s[1..]);
      EscapeRoundTrip(s[1..]);
      EscapeHead(s[1..]);
      var e := [s[0]] + t;
      assert Escape(s) == e;
      if |e| < 3 {
        assert Replace(t, EscapedWildcard, Wildcard) == t;
      } else {
        assert e[1] == s[1] != '\\';
        assert e[..3] != EscapedWildcard;
        assert e[1..] == t;
      }
      assert s == [s[0]] + s[1..];
    }
  }

  lemma EscapeStarKey()
    ensures Escape("x|*|c") == "x|\\*|c"
  {
    assert Escape("c") == "c";
    assert "|c"[..2] != Wildcard by { assert "|c"[..2][1] != Wildcard[1]; }
    assert Escape("|c") == "|" + Escape("c");
    assert Escape("|*|c") == EscapedWildcard + Escape("|c");
    assert Escape("x|*|c") == "x" + Escape("|*|c");
  }

  lemma EscapeBackslashKey()
    ensures Escape("x|\\*|c") == "x|\\*|c"
  {
    assert Escape("*|c") == "*" + Escape("|c");
    assert Escape("\\*|c") == "\\" + Escape("*|c");
    assert Escape("|\\*|c") == "|" + Escape("\\*|c");
    assert Escape("x|\\*|c") == "x" + Escape("|\\*|c");
  }

  /** The escape is not one-to-one: an OS group `*` and an OS group `\*` give the
      same identity key, so the two accounts cannot be told apart. */
  lemma EscapeCollides()
    ensures WebUsername("x", "*", "c") == WebUsername("x", "\\*", "c") == "x|\\*|c"
  {
    EscapeStarKey();
    EscapeBackslashKey();
    assert "x" + "|" + "*" + "|" + "c" == "x|*|c";
    assert "x" + "|" + "\\*" + "|" + "c" == "x|\\*|c";
  }

  const NotInstalledMessage := "Data Protector Cell Server not found"

  /** What the module reports */
  datatype ModuleResult = ModuleResult(
    changed: bool,
    originalMessage: string,
    message: string,
    user: string,
    state: DesiredState,
    webUsername: string)

  /** `run_module`: fail when the cell server is not installed; otherwise read the
      listing and report whether the account's presence differs from the desired
      state. Check mode leaves early without reporting a change, and nothing is
      ever created or removed here. */
  method RunModule(p: UserParams, installed: bool, checkMode: bool, listing: ExecResult)
    returns (r: Result<ModuleResult>)
    ensures !installed ==> r == Err(FailJson(NotInstalledMessage))
    ensures installed && Listing(listing).Err? ==> r == Err(Listing(listing).error)
    ensures installed && Listing(listing).Ok? ==>
              var w := WebUsername(p.name, p.osGroup, p.client);
              && r.Ok?
              && (r.value.changed <==> !checkMode && (w in Listing(listing).value <==> p.state == Absent))
              && r.value.originalMessage == "" && r.value.message == ""
              && r.value.user == p.name && r.value.state == p.state && r.value.webUsername == w
  {
    var webUsername := WebUsername(p.name, p.osGroup, p.client);
    var result := ModuleResult(false, "", "", p.name, p.state, webUsername);
    if !installed {
      return Err(FailJson(NotInstalledMessage));
    }
    var users := GetUsers(listing);
    if users.Err? {
      return Err(users.error);
    }
    var userExists := webUsername in users.value;
    if p.state == Absent && userExists {
      if checkMode {
        return Ok(result);
      }
      result := result.(changed := true);
    }
    if p.state == Present && !userExists {
      if checkMode {
        return Ok(result);
      }
      result := result.(changed := true);
    }
    if p.state == Absent && !userExists {
      result := result.(changed := false);
    }
    if p.state == Present && userExists {
      result := result.(changed := false);
    }
    return Ok(result);
  }
}
