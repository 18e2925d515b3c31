/** The account helpers of the Data Protector collection: reading the account
    listing of `omniusers -list`, building the `omniusers` create and remove
    command lines, and classifying what running them gave. */
module MfdpUsersUtil {
  import opened PyStr
  import opened Runtime
  import opened CommandText

  /** The user type: `-type W` accounts are Windows users, `-type U` Unix users */
  datatype UserType = Windows | Unix

  /** The `type` recorded for a listed account: Windows when its OS group passes `isupper()` */
  function TypeOf(osGroup: string): (t: UserType)
    ensures t == Windows <==> (exists i :: 0 <= i < |osGroup| && IsUpperChar(osGroup[i]))
                              && forall i :: 0 <= i < |osGroup| ==> !IsLowerChar(osGroup[i])
  {
    if IsUpper(osGroup) then Windows else Unix
  }

  /** One account of the listing, as `get_users` records it */
  datatype Account = Account(
    name: string,
    dpGroup: string,
    description: string,
    osGroup: string,
    userType: UserType,
    client: string)

  const ListCommand := "/opt/omni/bin/omniusers -list"

  // The keys of the listing's `Key: Value` lines
  const UserGroupKey := "User Group"
  const NameKey := "Name"
  const GroupKey := "Group"
  const ClientKey := "Client"
  const WebUsernameKey := "Web Username"
  const DescrKey := "Descr"

  /** The six keys the listing loop looks for are told apart. */
  lemma KeysDistinct()
    ensures UserGroupKey != NameKey && UserGroupKey != GroupKey && UserGroupKey != ClientKey
    ensures UserGroupKey != WebUsernameKey && UserGroupKey != DescrKey
    ensures NameKey != GroupKey && NameKey != ClientKey && NameKey != WebUsernameKey && NameKey != DescrKey
    ensures GroupKey != ClientKey && GroupKey != WebUsernameKey && GroupKey != DescrKey
    ensures ClientKey != WebUsernameKey && ClientKey != DescrKey && WebUsernameKey != DescrKey
  {
    assert GroupKey[0] != DescrKey[0];
  }

  /** The `(key, value)` pairs of the listing: the lines that `split(": ")` cuts
      into exactly two pieces, in order; every other line is dropped. */
  function FieldLines(lines: seq<string>): (r: seq<(string, string)>)
    ensures |r| <= |lines|
    ensures forall f :: f in r ==> exists l :: l in lines && Split(l, FieldSep) == [f.0, f.1]
    ensures forall l :: l in lines && |Split(l, FieldSep)| == 2 ==> (Split(l, FieldSep)[0], Split(l, FieldSep)[1]) in r
  {
    if lines == [] then []
    else
      var pieces := Split(lines[0], FieldSep);
      var rest := FieldLines(lines[1..]);
      assert lines[0] in lines;
      assert forall l :: l in lines[1..] ==> l in lines;
      assert forall l :: l in lines && l != lines[0] ==> l in lines[1..];
      if |pieces| == 2 then
        assert pieces == [pieces[0], pieces[1]];
        [(pieces[0], pieces[1])] + rest
      else rest
  }

  /** The pair a single line gives: one when it splits into two pieces, none otherwise */
  function LinePair(line: string): seq<(string, string)> {
    var pieces := Split(line, FieldSep);
    if |pieces| == 2 then [(pieces[0], pieces[1])] else []
  }

  /** The pairs keep the order and the number of the lines they come from:
      the pairs of two runs of lines are those of the first, then those of the
      second, and a line gives at most its own pair. */
  lemma {:induction false} FieldLinesAppend(a: seq<string>, b: seq<string>)
    ensures FieldLines(a + b) == FieldLines(a) + FieldLines(b)
    decreases |a|
  {
    if a == [] {
      assert a + b == b;
    } else {
      assert (a + b)[0] == a[0];
      assert (a + b)[1..] == a[1..] + b;
      FieldLinesAppend(a[1..], b);
    }
  }

  lemma FieldLinesOne(line: string)
    ensures FieldLines([line]) == LinePair(line)
  {
    assert [line][1..] == [];
  }

  /** The pairs the loop of `get_users` walks through */
  function Fields(out: string): seq<(string, string)> {
    FieldLines(SplitLines(out))
  }

  /** Reading the listing line by line: a line ended by a line boundary gives
      its pair, if any, ahead of the pairs of the text after the boundary. */
  lemma FieldsCons(line: string, t: char, rest: string)
    requires forall i :: 0 <= i < |line| ==> !IsLineBreak(line[i])
    requires IsLineBreak(t)
    requires t == '\r' ==> rest == [] || rest[0] != '\n'
    ensures Fields(line + [t] + rest) == LinePair(line) + Fields(rest)
  {
    SplitLinesCons(line, t, rest);
    FieldLinesAppend([line], SplitLines(rest));
    FieldLinesOne(line);
  }

  /** The pairs as the loop body sees them, key and value stripped */
  function Stripped(fields: seq<(string, string)>): seq<(string, string)> {
    seq(|fields|, i requires 0 <= i < |fields| => (Strip(fields[i].0), Strip(fields[i].1)))
  }

  lemma StrippedAt(fields: seq<(string, string)>, i: nat)
    requires i < |fields|
    ensures |Stripped(fields)| == |fields|
    ensures Stripped(fields)[i] == (Strip(fields[i].0), Strip(fields[i].1))
  {
  }

  /** The loop's locals: a field is `None` until a line has assigned it; it is
      never reset, so values carry over from one record to the next. */
  datatype Locals = Locals(
    dpGroup: Option<string>,
    name: Option<string>,
    osGroup: Option<string>,
    userType: Option<UserType>,
    client: Option<string>,
    webUsername: Option<string>,
    description: Option<string>,
    users: map<string, Account>)

  const Unassigned := Locals(None, None, None, None, None, None, None, map[])

  /** A `Descr` line ends a record: it is stored under the current web user name,
      or, when a local it reads was never assigned, Python raises UnboundLocalError
      (the dictionary's arguments are read first, in order, then the key). */
  function Finalise(st: Locals): Result<Locals>
    requires st.description.Some?
  {
    if st.name.None? then Err(UnboundLocal("name"))
    else if st.dpGroup.None? then Err(UnboundLocal("dp_group"))
    else if st.osGroup.None? then Err(UnboundLocal("os_group"))
    else if st.userType.None? then Err(UnboundLocal("type"))
    else if st.client.None? then Err(UnboundLocal("client"))
    else if st.webUsername.None? then Err(UnboundLocal("webusername"))
    else
      var account := Account(st.name.value, st.dpGroup.value, st.description.value,
                             st.osGroup.value, st.userType.value, st.client.value);
      Ok(st.(users := st.users[st.webUsername.value := account]))
  }

  /** One pass of the loop body on a stripped pair; a key outside the six known
      ones changes nothing. */
  function Step(st: Locals, field: (string, string)): Result<Locals> {
    var (key, value) := field;
    if key == UserGroupKey then Ok(st.(dpGroup := Some(value)))
    else if key == NameKey then Ok(st.(name := Some(value)))
    else if key == GroupKey then Ok(st.(osGroup := Some(value), userType := Some(TypeOf(value))))
    else if key == ClientKey then Ok(st.(client := Some(value)))
    else if key == WebUsernameKey then Ok(st.(webUsername := Some(value)))
    else if key == DescrKey then Finalise(st.(description := Some(value)))
    else Ok(st)
  }

  /** One pass of the loop body, local by local: each local is set by its own
      key only, and only a `Descr` line can fail or file an account. */
  lemma StepByLocal(st: Locals, key: string, value: string)
    ensures var r := Step(st, (key, value));
            && (r.Err? <==> key == DescrKey && (st.name.None? || st.dpGroup.None? || st.osGroup.None?
                                               || st.userType.None? || st.client.None? || st.webUsername.None?))
            && (r.Ok? ==>
                  && r.value.dpGroup == (if key == UserGroupKey then Some(value) else st.dpGroup)
                  && r.value.name == (if key == NameKey then Some(value) else st.name)
                  && r.value.osGroup == (if key == GroupKey then Some(value) else st.osGroup)
                  && r.value.userType == (if key == GroupKey then Some(TypeOf(value)) else st.userType)
                  && r.value.client == (if key == ClientKey then Some(value) else st.client)
                  && r.value.webUsername == (if key == WebUsernameKey then Some(value) else st.webUsername)
                  && r.value.description == (if key == DescrKey then Some(value) else st.description)
                  && r.value.users == (if key == DescrKey then
                                         st.users[st.webUsername.value := Account(st.name.value, st.dpGroup.value, value,
                                                                                 st.osGroup.value, st.userType.value, st.client.value)]
                                       else st.users))
  {
    KeysDistinct();
  }

  /** The loop of `get_users` over stripped pairs; an error ends it */
  function Parse(fields: seq<(string, string)>): Result<Locals>
    decreases |fields|
  {
    if fields == [] then Ok(Unassigned)
    else
      match Parse(fields[..|fields| - 1])
      case Err(e) => Err(e)
      case Ok(st) => Step(st, fields[|fields| - 1])
  }

  /** What `get_users` gives for the listing command's result */
  function Listing(run: ExecResult): Result<map<string, Account>> {
    if run.rc != 0 then Err(FailJson("Error executing " + ListCommand + ": " + run.err))
    else
      match Parse(Stripped(Fields(run.out)))
      case Err(e) => Err(e)
      case Ok(st) => Ok(st.users)
  }

  lemma {:induction false} ParseErrorPersists(fields: seq<(string, string)>, n: nat)
    requires n <= |fields|
    requires Parse(fields[..n]).Err?
    ensures Parse(fields) == Parse(fields[..n])
    decreases |fields| - n
  {
    if n < |fields| {
      var m := |fields| - 1;
      assert fields[..m][..n] == fields[..n];
      ParseErrorPersists(fields[..m], n);
      assert Parse(fields) == Parse(fields[..m]);
    } else {
      assert fields[..n] == fields;
    }
  }

  /** `get_users`: list the accounts and walk the listing's fields, stopping at
      the first failure; the result is the specification `Listing`. */
  method GetUsers(run: ExecResult) returns (r: Result<map<string, Account>>)
    ensures r == Listing(run)
  {
    if run.rc != 0 {
      return Err(FailJson("Error executing " + ListCommand + ": " + run.err));
    }
    var lines := Fields(run.out);
    ghost var fields := Stripped(lines);
    var usersDict: map<string, Account> := map[];
    var dpGroup: Option<string> := None;
    var name: Option<string> := None;
    var osGroup: Option<string> := None;
    var userType: Option<UserType> := None;
    var client: Option<string> := None;
    var webUsername: Option<string> := None;
    var description: Option<string> := None;
    var i := 0;
    KeysDistinct();
    while i < |lines|
      invariant 0 <= i <= |lines|
      invariant Parse(fields[..i]) == Ok(Locals(dpGroup, name, osGroup, userType, client, webUsername, description, usersDict))
    {
      ghost var before := Locals(dpGroup, name, osGroup, userType, client, webUsername, description, usersDict);
      assert fields[..i + 1][..i] == fields[..i];
      var key := Strip(lines[i].0);
      var value := Strip(lines[i].1);
      StrippedAt(lines, i);
      assert Parse(fields[..i + 1]) == Step(before, (key, value));
      StepByLocal(before, key, value);
      if key == UserGroupKey {
        dpGroup := Some(value);
      }
      if key == NameKey {
        name := Some(value);
      }
      if key == GroupKey {
        osGroup := Some(value);
        if IsUpper(value) {
          userType := Some(Windows);
        } else {
          userType := Some(Unix);
        }
      }
      if key == ClientKey {
        client := Some(value);
      }
      if key == WebUsernameKey {
        webUsername := Some(value);
      }
      if key == DescrKey {
        description := Some(value);
        var e: Option<string> := None;
        if name.None? {
          e := Some("name");
        } else if dpGroup.None? {
          e := Some("dp_group");
        } else if osGroup.None? {
          e := Some("os_group");
        } else if userType.None? {
          e := Some("type");
        } else if client.None? {
          e := Some("client");
        } else if webUsername.None? {
          e := Some("webusername");
        }
        if e.Some? {
          ParseErrorPersists(fields, i + 1);
          return Err(UnboundLocal(e.value));
        }
        usersDict := usersDict[webUsername.value := Account(name.value, dpGroup.value, description.value,
                                                            osGroup.value, userType.value, client.value)];
      }
      i := i + 1;
    }
    assert fields[..i] == fields;
    return Ok(usersDict);
  }

  // ---------------------------------------------------------------------------
  // What the listing parse means, stated over the lines read so far

  predicate IsKey(field: (string, string), key: string) {
    field.0 == key
  }

  // From here on, `fields` are pairs as the loop body sees them (stripped).

  /** The value of the last pair with `key`; `None` when there is none */
  function Latest(fields: seq<(string, string)>, key: string): Option<string>
    decreases |fields|
  {
    if fields == [] then None
    else if IsKey(fields[|fields| - 1], key) then Some(fields[|fields| - 1].1)
    else Latest(fields[..|fields| - 1], key)
  }

  /** There is no latest value for a key exactly when no pair has that key. */
  lemma {:induction false} LatestNone(fields: seq<(string, string)>, key: string)
    ensures Latest(fields, key).None? <==> forall j :: 0 <= j < |fields| ==> !IsKey(fields[j], key)
    decreases |fields|
  {
    if fields != [] {
      var n := |fields| - 1;
      LatestNone(fields[..n], key);
      assert forall j :: 0 <= j < n ==> fields[..n][j] == fields[j];
    }
  }

  /** One more pair: its value is the latest for its own key, and every other
      key keeps the value it had. */
  lemma LatestSnoc(pre: seq<(string, string)>, f: (string, string), key: string)
    ensures Latest(pre + [f], key) == if IsKey(f, key) then Some(f.1) else Latest(pre, key)
  {
    assert (pre + [f])[..|pre|] == pre;
  }

  function LatestType(fields: seq<(string, string)>): Option<UserType> {
    match Latest(fields, GroupKey)
    case None => None
    case Some(g) => Some(TypeOf(g))
  }

  /** Every local holds the latest value seen for its key anywhere earlier,
      whatever records lie in between. */
  predicate LocalsAreLatest(st: Locals, fields: seq<(string, string)>) {
    && st.dpGroup == Latest(fields, UserGroupKey)
    && st.name == Latest(fields, NameKey)
    && st.osGroup == Latest(fields, GroupKey)
    && st.userType == LatestType(fields)
    && st.client == Latest(fields, ClientKey)
    && st.webUsername == Latest(fields, WebUsernameKey)
    && st.description == Latest(fields, DescrKey)
  }

  /** One pass of the loop body keeps every local the latest value of its key. */
  lemma StepKeepsLatest(st: Locals, pre: seq<(string, string)>, f: (string, string))
    requires LocalsAreLatest(st, pre) && Step(st, f).Ok?
    ensures LocalsAreLatest(Step(st, f).value, pre + [f])
  {
    LatestSnoc(pre, f, UserGroupKey);
    LatestSnoc(pre, f, NameKey);
    LatestSnoc(pre, f, GroupKey);
    LatestSnoc(pre, f, ClientKey);
    LatestSnoc(pre, f, WebUsernameKey);
    LatestSnoc(pre, f, DescrKey);
  }

  lemma {:induction false} ParseLocalsAreLatest(fields: seq<(string, string)>)
    requires Parse(fields).Ok?
    ensures LocalsAreLatest(Parse(fields).value, fields)
    decreases |fields|
  {
    if fields != [] {
      var n := |fields| - 1;
      var pre := fields[..n];
      ParseLocalsAreLatest(pre);
      StepKeepsLatest(Parse(pre).value, pre, fields[n]);
      assert pre + [fields[n]] == fields;
    }
  }

  /** The account a `Descr` line ending `fields` records, read from the latest values */
  function RecordOf(fields: seq<(string, string)>): Option<Account> {
    match (Latest(fields, NameKey), Latest(fields, UserGroupKey), Latest(fields, DescrKey),
           Latest(fields, GroupKey), Latest(fields, ClientKey))
    case (Some(n), Some(g), Some(d), Some(o), Some(c)) => Some(Account(n, g, d, o, TypeOf(o), c))
    case _ => None
  }

  /** The `Descr` line at `j` ends a record filed under the web user name `k` */
  predicate EndsRecordFor(fields: seq<(string, string)>, j: int, k: string)
    requires 0 <= j < |fields|
  {
    IsKey(fields[j], DescrKey) && Latest(fields[..j], WebUsernameKey) == Some(k)
  }

  /** The last `Descr` line that ends a record filed under `k` */
  function LastRecordFor(fields: seq<(string, string)>, k: string): (r: Option<nat>)
    ensures r.Some? ==> r.value < |fields|
    decreases |fields|
  {
    if fields == [] then None
    else if EndsRecordFor(fields, |fields| - 1, k) then Some(|fields| - 1)
    else LastRecordFor(fields[..|fields| - 1], k)
  }

  /** The line found ends a record filed under `k` and no later line does;
      none is found exactly when no line does. */
  lemma {:induction false} LastRecordForSpec(fields: seq<(string, string)>, k: string)
    ensures var r := LastRecordFor(fields, k);
            && (r.Some? ==> EndsRecordFor(fields, r.value, k))
            && (r.Some? ==> forall j :: r.value < j < |fields| ==> !EndsRecordFor(fields, j, k))
            && (r.None? ==> forall j :: 0 <= j < |fields| ==> !EndsRecordFor(fields, j, k))
    decreases |fields|
  {
    if fields != [] {
      var n := |fields| - 1;
      if !EndsRecordFor(fields, n, k) {
        LastRecordForSpec(fields[..n], k);
        forall j | 0 <= j < n
          ensures EndsRecordFor(fields, j, k) <==> EndsRecordFor(fields[..n], j, k)
        {
          assert fields[..j] == fields[..n][..j];
        }
      }
    }
  }

  /** A `Descr` line leaves the latest value of every other key as it was. */
  lemma LatestPastOther(fields: seq<(string, string)>, key: string)
    requires fields != [] && !IsKey(fields[|fields| - 1], key)
    ensures Latest(fields, key) == Latest(fields[..|fields| - 1], key)
  {
  }

  /** One line of the walk: the dictionary changes only at a `Descr` line, which
      files the record of the latest values under the latest web user name. */
  lemma ParseUsersStep(fields: seq<(string, string)>)
    requires fields != [] && Parse(fields).Ok?
    ensures var pre := fields[..|fields| - 1];
            && Parse(pre).Ok?
            && (IsKey(fields[|fields| - 1], DescrKey) ==>
                  && Latest(pre, WebUsernameKey).Some?
                  && RecordOf(fields).Some?
                  && Parse(fields).value.users
                     == Parse(pre).value.users[Latest(pre, WebUsernameKey).value := RecordOf(fields).value])
            && (!IsKey(fields[|fields| - 1], DescrKey) ==> Parse(fields).value.users == Parse(pre).value.users)
  {
    var n := |fields| - 1;
    var pre := fields[..n];
    ParseLocalsAreLatest(pre);
    if IsKey(fields[n], DescrKey) {
      LatestPastOther(fields, NameKey);
      LatestPastOther(fields, UserGroupKey);
      LatestPastOther(fields, GroupKey);
      LatestPastOther(fields, ClientKey);
    }
  }


  /** What the dictionary says about the web user name `k`: present exactly when
      some `Descr` line filed a record under it, holding the record of the last one */
  predicate UsersAreLastRecordsAt(fields: seq<(string, string)>, k: string)
    requires Parse(fields).Ok?
  {
    && (k in Parse(fields).value.users <==> LastRecordFor(fields, k).Some?)
    && (k in Parse(fields).value.users ==>
          RecordOf(fields[..LastRecordFor(fields, k).value + 1]) == Some(Parse(fields).value.users[k]))
  }

  /** The dictionary's account of `k` after one more line, stated over the
      dictionaries before and after that line */
  lemma LastRecordsStep(fields: seq<(string, string)>, k: string,
                        before: map<string, Account>, users: map<string, Account>)
    requires fields != []
    requires var pre := fields[..|fields| - 1];
             && (k in before <==> LastRecordFor(pre, k).Some?)
             && (k in before ==> RecordOf(pre[..LastRecordFor(pre, k).value + 1]) == Some(before[k]))
    requires var pre := fields[..|fields| - 1];
             IsKey(fields[|fields| - 1], DescrKey) ==>
               && Latest(pre, WebUsernameKey).Some? && RecordOf(fields).Some?
               && users == before[Latest(pre, WebUsernameKey).value := RecordOf(fields).value]
    requires !IsKey(fields[|fields| - 1], DescrKey) ==> users == before
    ensures k in users <==> LastRecordFor(fields, k).Some?
    ensures k in users ==> RecordOf(fields[..LastRecordFor(fields, k).value + 1]) == Some(users[k])
  {
    var n := |fields| - 1;
    var pre := fields[..n];
    if EndsRecordFor(fields, n, k) {
      assert fields[..n + 1] == fields;
    } else {
      LastRecordEarlier(fields, k);
    }
  }

  /** When the last line does not file a record under `k`, the last record for
      `k` is the one before it, read the same from the longer text. */
  lemma LastRecordEarlier(fields: seq<(string, string)>, k: string)
    requires fields != [] && !EndsRecordFor(fields, |fields| - 1, k)
    ensures var pre := fields[..|fields| - 1];
            && LastRecordFor(fields, k) == LastRecordFor(pre, k)
            && (LastRecordFor(pre, k).Some? ==>
                  fields[..LastRecordFor(fields, k).value + 1] == pre[..LastRecordFor(pre, k).value + 1])
  {
  }

  /** The dictionary holds exactly the web user names some `Descr` line filed a
      record under, and each maps to the record of the LAST such line, made of
      the values latest at that line (last one wins). */
  lemma {:induction false} ParseUsersAreLastRecords(fields: seq<(string, string)>)
    requires Parse(fields).Ok?
    ensures forall k :: UsersAreLastRecordsAt(fields, k)
    decreases |fields|
  {
    if fields != [] {
      var pre := fields[..|fields| - 1];
      ParseUsersStep(fields);
      ParseUsersAreLastRecords(pre);
      var before := Parse(pre).value.users;
      var users := Parse(fields).value.users;
      forall k ensures UsersAreLastRecordsAt(fields, k) {
        assert UsersAreLastRecordsAt(pre, k);
        LastRecordsStep(fields, k, before, users);
      }
    }
  }

  /** The number of `Descr` lines */
  function DescrCount(fields: seq<(string, string)>): nat
    decreases |fields|
  {
    if fields == [] then 0
    else DescrCount(fields[..|fields| - 1]) + if IsKey(fields[|fields| - 1], DescrKey) then 1 else 0
  }

  /** Only a `Descr` line adds an entry, so there are at most as many accounts as `Descr` lines. */
  lemma {:induction false} ParseUsersAtMostDescrLines(fields: seq<(string, string)>)
    requires Parse(fields).Ok?
    ensures |Parse(fields).value.users| <= DescrCount(fields)
    decreases |fields|
  {
    if fields != [] {
      var n := |fields| - 1;
      ParseUsersAtMostDescrLines(fields[..n]);
      ParseUsersStep(fields);
      var before := Parse(fields[..n]).value.users.Keys;
      if IsKey(fields[n], DescrKey) {
        var w := Latest(fields[..n], WebUsernameKey).value;
        assert Parse(fields).value.users.Keys == before + {w};
        assert |before + {w}| <= |before| + 1;
      }
    }
  }

  /** Every local a record needs has been assigned by the lines in `fields` */
  predicate RecordReady(fields: seq<(string, string)>) {
    && Latest(fields, NameKey).Some?
    && Latest(fields, UserGroupKey).Some?
    && Latest(fields, GroupKey).Some?
    && Latest(fields, ClientKey).Some?
    && Latest(fields, WebUsernameKey).Some?
  }

  /** A `Descr` line fails exactly when a field a record needs was never assigned;
      an earlier failure is carried on unchanged. */
  lemma ParseStepFails(fields: seq<(string, string)>)
    requires fields != []
    ensures var pre := fields[..|fields| - 1];
            && (Parse(pre).Err? ==> Parse(fields) == Parse(pre))
            && (Parse(pre).Ok? ==>
                  (Parse(fields).Err? <==> IsKey(fields[|fields| - 1], DescrKey) && !RecordReady(pre)))
            && (Parse(pre).Ok? && Parse(fields).Err? ==> Parse(fields).error.UnboundLocal?)
  {
    var pre := fields[..|fields| - 1];
    if Parse(pre).Ok? {
      ParseLocalsAreLatest(pre);
    }
  }

  /** Some `Descr` line among the first `n` comes before a field a record needs */
  predicate EarlyDescr(fields: seq<(string, string)>, n: nat)
    requires n <= |fields|
  {
    exists j :: 0 <= j < n && IsKey(fields[j], DescrKey) && !RecordReady(fields[..j])
  }

  lemma EarlyDescrPrefix(fields: seq<(string, string)>)
    requires fields != []
    ensures EarlyDescr(fields, |fields| - 1) <==> EarlyDescr(fields[..|fields| - 1], |fields| - 1)
  {
    var pre := fields[..|fields| - 1];
    if EarlyDescr(fields, |fields| - 1) {
      var j :| 0 <= j < |fields| - 1 && IsKey(fields[j], DescrKey) && !RecordReady(fields[..j]);
      assert fields[..j] == pre[..j];
    }
    if EarlyDescr(pre, |fields| - 1) {
      var j :| 0 <= j < |fields| - 1 && IsKey(pre[j], DescrKey) && !RecordReady(pre[..j]);
      assert fields[..j] == pre[..j];
    }
  }

  lemma EarlyDescrLast(fields: seq<(string, string)>)
    requires fields != []
    ensures var n := |fields| - 1;
            EarlyDescr(fields, n + 1) <==> EarlyDescr(fields, n) || (IsKey(fields[n], DescrKey) && !RecordReady(fields[..n]))
  {
    var n := |fields| - 1;
    if EarlyDescr(fields, n + 1) && !EarlyDescr(fields, n) {
      var j :| 0 <= j < n + 1 && IsKey(fields[j], DescrKey) && !RecordReady(fields[..j]);
      assert j == n;
    }
  }

  /** The walk fails exactly when some `Descr` line comes before one of the
      fields a record needs, and the failure is then an unassigned local. */
  lemma {:induction false} ParseFailsIff(fields: seq<(string, string)>)
    ensures Parse(fields).Err? <==> EarlyDescr(fields, |fields|)
    ensures Parse(fields).Err? ==> Parse(fields).error.UnboundLocal?
    decreases |fields|
  {
    if fields != [] {
      var pre := fields[..|fields| - 1];
      ParseFailsIff(pre);
      ParseStepFails(fields);
      EarlyDescrPrefix(fields);
      EarlyDescrLast(fields);
    }
  }

  /** One record, with an upper-case OS group: a single Windows account, filed
      under its web user name. */
  lemma ParseOneRecord()
    ensures Parse([(WebUsernameKey, "alice|ops|host1"), (UserGroupKey, "admins"), (NameKey, "Alice"),
                   (GroupKey, "OPS"), (ClientKey, "host1"), (DescrKey, "test")]).Ok?
    ensures Parse([(WebUsernameKey, "alice|ops|host1"), (UserGroupKey, "admins"), (NameKey, "Alice"),
                   (GroupKey, "OPS"), (ClientKey, "host1"), (DescrKey, "test")]).value.users
            == map["alice|ops|host1" := Account("Alice", "admins", "test", "OPS", Windows, "host1")]
  {
    var fields := [(WebUsernameKey, "alice|ops|host1"), (UserGroupKey, "admins"), (NameKey, "Alice"),
                   (GroupKey, "OPS"), (ClientKey, "host1"), (DescrKey, "test")];
    assert TypeOf("OPS") == Windows by {
      assert IsUpperChar("OPS"[0]);
    }
    var st := Unassigned;
    for k := 0 to 6
      invariant Parse(fields[..k]) == Ok(st)
      invariant k >= 1 ==> st.webUsername == Some("alice|ops|host1")
      invariant k >= 2 ==> st.dpGroup == Some("admins")
      invariant k >= 3 ==> st.name == Some("Alice")
      invariant k >= 4 ==> st.osGroup == Some("OPS") && st.userType == Some(Windows)
      invariant k >= 5 ==> st.client == Some("host1")
      invariant st.description == (if k == 6 then Some("test") else None)
      invariant st.users == if k == 6 then map["alice|ops|host1" := Account("Alice", "admins", "test", "OPS", Windows, "host1")] else map[]
    {
      assert fields[..k + 1][..k] == fields[..k];
      st := Step(st, fields[k]).value;
    }
    assert fields[..6] == fields;
  }

  /** Lines without a `Descr` line never fail and file no account. */
  lemma {:induction false} NoDescrNoUsers(fields: seq<(string, string)>)
    requires forall j :: 0 <= j < |fields| ==> !IsKey(fields[j], DescrKey)
    ensures Parse(fields).Ok? && Parse(fields).value.users == map[]
    decreases |fields|
  {
    if fields != [] {
      var n := |fields| - 1;
      assert forall j :: 0 <= j < n ==> fields[..n][j] == fields[j];
      NoDescrNoUsers(fields[..n]);
    }
  }

  /** A successful listing without any `Descr` line gives no accounts. */
  lemma ListingWithoutDescr(run: ExecResult)
    requires run.rc == 0
    requires forall j :: 0 <= j < |Fields(run.out)| ==> Strip(Fields(run.out)[j].0) != DescrKey
    ensures Listing(run) == Ok(map[])
  {
    NoDescrNoUsers(Stripped(Fields(run.out)));
  }

  /** A failing listing command fails the run with its stderr and yields no accounts. */
  lemma ListingCommandFails(run: ExecResult)
    requires run.rc != 0
    ensures Listing(run).Err? && Listing(run).error.FailJson?
    ensures exists i :: OccursAt(Listing(run).error.msg, run.err, i)
  {
    var msg := Listing(run).error.msg;
    assert OccursAt(msg, run.err, |msg| - |run.err|);
  }

  // ---------------------------------------------------------------------------
  // Building the commands and reading their outcome

  datatype DesiredState = Absent | Present

  /** The module parameters the helpers read */
  datatype UserParams = UserParams(
    name: string,
    osGroup: string,
    client: string,
    dpGroup: string,
    userType: string,
    description: Option<string>,
    password: Option<string>,
    state: DesiredState)

  const CreateHead := "/opt/omni/bin/omniusers -add -type "

  /** The indentation the continuation lines of the create command's f-string
      keep once their backslash-newline is removed */
  const Indent := "    "

  /** One option of a command line: the text in front of it, a blank, the option
      word, a blank and the double-quoted value */
  function Opt(front: string, word: string, value: string): string {
    front + " " + word + " " + Quote(value)
  }

  /** The `-type` letter: `W` for Windows accounts, `U` for anything else */
  function TypeLetter(userType: string): string {
    if userType == "windows" then "W" else "U"
  }

  /** The create command, before the optional description and password */
  function CreateBase(p: UserParams): string {
    CreateHead + TypeLetter(p.userType) + Opt(Indent, "-usergroup", p.dpGroup) + Opt(Indent, "-name", p.name)
    + Opt(Indent, "-group", p.osGroup) + Opt(Indent, "-client", p.client)
  }

  /** The create command: the description and password are added when set and nonempty */
  function CreateCommand(p: UserParams): string {
    var command := CreateBase(p);
    var command := if Truthy(p.description) then command + Opt("", "-desc", p.description.value) else command;
    if Truthy(p.password) then command + Opt("", "-pass", p.password.value) else command
  }

  /** The options the create command carries, in order */
  function CreateOptions(p: UserParams): seq<(string, string)> {
    [("-usergroup", p.dpGroup), ("-name", p.name), ("-group", p.osGroup), ("-client", p.client)]
    + (if Truthy(p.description) then [("-desc", p.description.value)] else [])
    + (if Truthy(p.password) then [("-pass", p.password.value)] else [])
  }

  lemma PrefixKept(a: string, b: string, k: nat)
    requires k <= |a|
    ensures |a + b| >= |a| && (a + b)[..k] == a[..k]
  {
  }

  /** The create command starts with `omniusers -add -type` and the type letter. */
  lemma CreateCommandType(p: UserParams)
    ensures |CreateCommand(p)| > |CreateHead|
    ensures CreateCommand(p)[..|CreateHead| + 1] == CreateHead + (if p.userType == "windows" then "W" else "U")
  {
    var front := CreateHead + TypeLetter(p.userType);
    var k := |CreateHead| + 1;
    assert front[..k] == front;
    var c1 := front + Opt(Indent, "-usergroup", p.dpGroup);
    PrefixKept(front, Opt(Indent, "-usergroup", p.dpGroup), k);
    var c2 := c1 + Opt(Indent, "-name", p.name);
    PrefixKept(c1, Opt(Indent, "-name", p.name), k);
    var c3 := c2 + Opt(Indent, "-group", p.osGroup);
    PrefixKept(c2, Opt(Indent, "-group", p.osGroup), k);
    var c4 := c3 + Opt(Indent, "-client", p.client);
    PrefixKept(c3, Opt(Indent, "-client", p.client), k);
    assert c4 == CreateBase(p);
    var c5 := c4;
    if Truthy(p.description) {
      c5 := c4 + Opt("", "-desc", p.description.value);
      PrefixKept(c4, Opt("", "-desc", p.description.value), k);
    }
    if Truthy(p.password) {
      PrefixKept(c5, Opt("", "-pass", p.password.value), k);
    }
  }

  /** An option word: nonempty, with no blank and no quote */
  predicate IsWord(w: string) {
    w != [] && NoBlank(w) && NoQuote(w)
  }

  lemma OptionWords()
    ensures IsWord("-usergroup") && IsWord("-name") && IsWord("-group") && IsWord("-client")
    ensures IsWord("-desc") && IsWord("-pass")
    ensures NoQuote(Indent) && NoQuote("")
  {
  }

  /** Appending an option to a command read to its end adds exactly that option
      to what is read back. */
  lemma OptionsOpt(x: string, front: string, word: string, value: string)
    requires Closed(x) && NoQuote(front) && NoQuote(value)
    requires IsWord(word)
    ensures Closed(x + Opt(front, word, value))
    ensures Options(x + Opt(front, word, value)) == Options(x) + [(word, value)]
  {
    var seg := front + " " + word + " ";
    assert NoQuote(seg) by {
      NoQuoteConcat(front, " ");
      NoQuoteConcat(front + " ", word);
      NoQuoteConcat(front + " " + word, " ");
    }
    LastWordOf(front, word);
    OptionsSnoc(x, seg, value);
    Associate(x, seg, Quote(value));
  }

  lemma CreateFrontNoQuote(userType: string)
    ensures NoQuote(CreateHead + TypeLetter(userType) + Indent)
  {
  }

  lemma OptAfter(front: string, indent: string, word: string, value: string)
    ensures "" + Opt(front + indent, word, value) == front + Opt(indent, word, value)
  {
    calc {
      "" + Opt(front + indent, word, value);
      front + indent + " " + word + " " + Quote(value);
      { Reassociate(front, indent, " " + word + " ", Quote(value)); }
      front + (indent + (" " + word + " ") + Quote(value));
      front + Opt(indent, word, value);
    }
  }

  /** The first option, after quote-free text */
  lemma OptionsFirst(front: string, indent: string, word: string, value: string)
    requires NoQuote(front + indent) && NoQuote(value) && IsWord(word)
    ensures Closed(front + Opt(indent, word, value))
    ensures Options(front + Opt(indent, word, value)) == [(word, value)]
  {
    OptionsOpt("", front + indent, word, value);
    OptAfter(front, indent, word, value);
  }

  lemma Consecutive<T>(a: T, b: T, c: T, d: T)
    ensures [a] + [b] + [c] + [d] == [a, b, c, d]
  {
  }

  /** The four options every create command carries are read back in order,
      whatever quote-free text comes in front of them. */
  lemma BaseOptionsAfter(front: string, p: UserParams)
    requires NoQuote(front + Indent)
    requires NoQuote(p.dpGroup) && NoQuote(p.name) && NoQuote(p.osGroup) && NoQuote(p.client)
    ensures var cmd := front + Opt(Indent, "-usergroup", p.dpGroup) + Opt(Indent, "-name", p.name)
                       + Opt(Indent, "-group", p.osGroup) + Opt(Indent, "-client", p.client);
            Closed(cmd) && Options(cmd) == [("-usergroup", p.dpGroup)] + [("-name", p.name)] + [("-group", p.osGroup)] + [("-client", p.client)]
  {
    OptionWords();
    var c1 := front + Opt(Indent, "-usergroup", p.dpGroup);
    OptionsFirst(front, Indent, "-usergroup", p.dpGroup);
    var c2 := c1 + Opt(Indent, "-name", p.name);
    OptionsOpt(c1, Indent, "-name", p.name);
    var c3 := c2 + Opt(Indent, "-group", p.osGroup);
    OptionsOpt(c2, Indent, "-group", p.osGroup);
    OptionsOpt(c3, Indent, "-client", p.client);
  }

  lemma CreateBaseOptions(p: UserParams)
    requires NoQuote(p.dpGroup) && NoQuote(p.name) && NoQuote(p.osGroup) && NoQuote(p.client)
    ensures Closed(CreateBase(p))
    ensures Options(CreateBase(p)) == [("-usergroup", p.dpGroup), ("-name", p.name), ("-group", p.osGroup), ("-client", p.client)]
  {
    CreateFrontNoQuote(p.userType);
    BaseOptionsAfter(CreateHead + TypeLetter(p.userType), p);
    Consecutive(("-usergroup", p.dpGroup), ("-name", p.name), ("-group", p.osGroup), ("-client", p.client));
  }

  /** Reading the create command back gives its options and values unchanged,
      provided no value holds a double quote (values are not escaped). */
  lemma CreateCommandOptions(p: UserParams)
    requires NoQuote(p.dpGroup) && NoQuote(p.name) && NoQuote(p.osGroup) && NoQuote(p.client)
    requires Truthy(p.description) ==> NoQuote(p.description.value)
    requires Truthy(p.password) ==> NoQuote(p.password.value)
    ensures Options(CreateCommand(p)) == CreateOptions(p)
  {
    var c4 := CreateBase(p);
    var base := [("-usergroup", p.dpGroup), ("-name", p.name), ("-group", p.osGroup), ("-client", p.client)];
    var desc := if Truthy(p.description) then [("-desc", p.description.value)] else [];
    var pass := if Truthy(p.password) then [("-pass", p.password.value)] else [];
    var c5 := if Truthy(p.description) then c4 + Opt("", "-desc", p.description.value) else c4;
    CreateBaseOptions(p);
    OptionWords();
    if Truthy(p.description) {
      OptionsOpt(c4, "", "-desc", p.description.value);
    } else {
      EmptyRight(base);
    }
    if Truthy(p.password) {
      OptionsOpt(c5, "", "-pass", p.password.value);
    } else {
      EmptyRight(base + desc);
    }
  }

  /** Some value the create command writes holds a double quote */
  predicate CreateValueHasQuote(p: UserParams) {
    || !NoQuote(p.dpGroup) || !NoQuote(p.name) || !NoQuote(p.osGroup) || !NoQuote(p.client)
    || (Truthy(p.description) && !NoQuote(p.description.value))
    || (Truthy(p.password) && !NoQuote(p.password.value))
  }

  /** An option whose value holds a double quote, after a command read to its
      end and followed by anything: the option read at its place is not that
      value whole. */
  lemma QuotedValueAt(c: string, front: string, word: string, v: string, cmd: string)
    requires Closed(c) && NoQuote(front) && IsWord(word) && !NoQuote(v)
    requires c + Opt(front, word, v) <= cmd
    ensures |Options(cmd)| > |Options(c)|
    ensures Options(cmd)[|Options(c)|] != (word, v)
  {
    var o := Opt(front, word, v);
    var t := cmd[|c + o|..];
    assert cmd == c + o + t;
    var seg := front + " " + word + " ";
    assert NoQuote(seg) by {
      NoQuoteConcat(front, " ");
      NoQuoteConcat(front + " ", word);
      NoQuoteConcat(front + " " + word, " ");
    }
    LastWordOf(front, word);
    Associate(c, o, t);
    OptionsAppend(c, o + t);
    QuoteInValueBreaksOptions(seg, v, t);
  }

  /** The create command with the value at option `k` holding a double quote,
      all options before it being quote-free: reading back differs at `k`. */
  lemma CreateBreaksAt(p: UserParams, c: string, front: string, word: string, v: string)
    requires Closed(c) && NoQuote(front) && IsWord(word) && !NoQuote(v)
    requires c + Opt(front, word, v) <= CreateCommand(p)
    requires |Options(c)| < |CreateOptions(p)| && CreateOptions(p)[|Options(c)|] == (word, v)
    ensures Options(CreateCommand(p)) != CreateOptions(p)
  {
    QuotedValueAt(c, front, word, v, CreateCommand(p));
  }

  lemma Extends(a: string, b: string, c: string)
    requires a + b <= c
    ensures a <= c
  {
    assert a <= a + b;
  }

  /** Each option of the create command is followed by the rest of the command. */
  lemma CreatePrefixes(p: UserParams)
    ensures var c1 := CreateHead + TypeLetter(p.userType) + Opt(Indent, "-usergroup", p.dpGroup);
            var c2 := c1 + Opt(Indent, "-name", p.name);
            var c3 := c2 + Opt(Indent, "-group", p.osGroup);
            var c4 := c3 + Opt(Indent, "-client", p.client);
            var c5 := if Truthy(p.description) then c4 + Opt("", "-desc", p.description.value) else c4;
            && c1 <= CreateCommand(p) && c2 <= CreateCommand(p) && c3 <= CreateCommand(p)
            && c4 == CreateBase(p) && c4 <= CreateCommand(p) && c5 <= CreateCommand(p)
            && (Truthy(p.password) ==> c5 + Opt("", "-pass", p.password.value) == CreateCommand(p))
  {
    var c1 := CreateHead + TypeLetter(p.userType) + Opt(Indent, "-usergroup", p.dpGroup);
    var c2 := c1 + Opt(Indent, "-name", p.name);
    var c3 := c2 + Opt(Indent, "-group", p.osGroup);
    var c4 := c3 + Opt(Indent, "-client", p.client);
    var c5 := if Truthy(p.description) then c4 + Opt("", "-desc", p.description.value) else c4;
    var cmd := CreateCommand(p);
    assert c5 <= cmd;
    Extends(c4, if Truthy(p.description) then Opt("", "-desc", p.description.value) else "", c5);
    Extends(c3, Opt(Indent, "-client", p.client), c4);
    Extends(c2, Opt(Indent, "-group", p.osGroup), c3);
    Extends(c1, Opt(Indent, "-name", p.name), c2);
  }

  /** The options the create command always carries, as they are listed */
  lemma CreateOptionsAt(p: UserParams)
    ensures var opts := CreateOptions(p);
            && |opts| >= 4
            && opts[0] == ("-usergroup", p.dpGroup) && opts[1] == ("-name", p.name)
            && opts[2] == ("-group", p.osGroup) && opts[3] == ("-client", p.client)
            && (Truthy(p.description) ==> opts[4] == ("-desc", p.description.value))
            && (Truthy(p.password) ==> opts[|opts| - 1] == ("-pass", p.password.value))
  {
  }

  lemma UserGroupQuoteBreaks(p: UserParams)
    requires !NoQuote(p.dpGroup)
    ensures Options(CreateCommand(p)) != CreateOptions(p)
  {
    var front := CreateHead + TypeLetter(p.userType);
    CreatePrefixes(p);
    CreateOptionsAt(p);
    OptionWords();
    CreateFrontNoQuote(p.userType);
    OptAfter(front, Indent, "-usergroup", p.dpGroup);
    CreateBreaksAt(p, "", front + Indent, "-usergroup", p.dpGroup);
  }

  /** The create command up to its first option, read to its end */
  lemma CreateFirstOption(p: UserParams)
    requires NoQuote(p.dpGroup)
    ensures var c1 := CreateHead + TypeLetter(p.userType) + Opt(Indent, "-usergroup", p.dpGroup);
            Closed(c1) && |Options(c1)| == 1
  {
    OptionWords();
    CreateFrontNoQuote(p.userType);
    OptionsFirst(CreateHead + TypeLetter(p.userType), Indent, "-usergroup", p.dpGroup);
  }

  lemma NameQuoteBreaks(p: UserParams)
    requires NoQuote(p.dpGroup) && !NoQuote(p.name)
    ensures Options(CreateCommand(p)) != CreateOptions(p)
  {
    var c1 := CreateHead + TypeLetter(p.userType) + Opt(Indent, "-usergroup", p.dpGroup);
    CreatePrefixes(p);
    CreateOptionsAt(p);
    OptionWords();
    CreateFirstOption(p);
    CreateBreaksAt(p, c1, Indent, "-name", p.name);
  }

  /** The create command up to its second option, read to its end */
  lemma CreateSecondOption(p: UserParams)
    requires NoQuote(p.dpGroup) && NoQuote(p.name)
    ensures var c2 := CreateHead + TypeLetter(p.userType) + Opt(Indent, "-usergroup", p.dpGroup) + Opt(Indent, "-name", p.name);
            Closed(c2) && |Options(c2)| == 2
  {
    OptionWords();
    CreateFirstOption(p);
    OptionsOpt(CreateHead + TypeLetter(p.userType) + Opt(Indent, "-usergroup", p.dpGroup), Indent, "-name", p.name);
  }

  lemma GroupQuoteBreaks(p: UserParams)
    requires NoQuote(p.dpGroup) && NoQuote(p.name) && !NoQuote(p.osGroup)
    ensures Options(CreateCommand(p)) != CreateOptions(p)
  {
    var c2 := CreateHead + TypeLetter(p.userType) + Opt(Indent, "-usergroup", p.dpGroup) + Opt(Indent, "-name", p.name);
    CreatePrefixes(p);
    CreateOptionsAt(p);
    OptionWords();
    CreateSecondOption(p);
    CreateBreaksAt(p, c2, Indent, "-group", p.osGroup);
  }

  lemma ClientQuoteBreaks(p: UserParams)
    requires NoQuote(p.dpGroup) && NoQuote(p.name) && NoQuote(p.osGroup) && !NoQuote(p.client)
    ensures Options(CreateCommand(p)) != CreateOptions(p)
  {
    var c2 := CreateHead + TypeLetter(p.userType) + Opt(Indent, "-usergroup", p.dpGroup) + Opt(Indent, "-name", p.name);
    var c3 := c2 + Opt(Indent, "-group", p.osGroup);
    CreatePrefixes(p);
    CreateOptionsAt(p);
    OptionWords();
    CreateSecondOption(p);
    OptionsOpt(c2, Indent, "-group", p.osGroup);
    CreateBreaksAt(p, c3, Indent, "-client", p.client);
  }

  /** A double quote in the description or the password, the four values
      before them being quote-free */
  lemma CreateTailQuoteBreaks(p: UserParams)
    requires NoQuote(p.dpGroup) && NoQuote(p.name) && NoQuote(p.osGroup) && NoQuote(p.client)
    requires (Truthy(p.description) && !NoQuote(p.description.value)) || (Truthy(p.password) && !NoQuote(p.password.value))
    ensures Options(CreateCommand(p)) != CreateOptions(p)
  {
    var c4 := CreateBase(p);
    CreatePrefixes(p);
    CreateOptionsAt(p);
    CreateBaseOptions(p);
    OptionWords();
    if Truthy(p.description) && !NoQuote(p.description.value) {
      assert c4 + Opt("", "-desc", p.description.value) <= CreateCommand(p);
      CreateBreaksAt(p, c4, "", "-desc", p.description.value);
    } else {
      var c5 := if Truthy(p.description) then c4 + Opt("", "-desc", p.description.value) else c4;
      if Truthy(p.description) {
        OptionsOpt(c4, "", "-desc", p.description.value);
      }
      assert |Options(c5)| == |CreateOptions(p)| - 1;
      CreateBreaksAt(p, c5, "", "-pass", p.password.value);
    }
  }

  /** A double quote in any value the create command writes means the command
      is not read back as its options: values are written unescaped. */
  lemma CreateQuoteBreaksOptions(p: UserParams)
    requires CreateValueHasQuote(p)
    ensures Options(CreateCommand(p)) != CreateOptions(p)
  {
    if !NoQuote(p.dpGroup) {
      UserGroupQuoteBreaks(p);
    } else if !NoQuote(p.name) {
      NameQuoteBreaks(p);
    } else if !NoQuote(p.osGroup) {
      GroupQuoteBreaks(p);
    } else if !NoQuote(p.client) {
      ClientQuoteBreaks(p);
    } else {
      CreateTailQuoteBreaks(p);
    }
  }

  /** The create command reads back as exactly its options if and only if no
      value it writes holds a double quote. */
  lemma CreateCommandOptionsIff(p: UserParams)
    ensures Options(CreateCommand(p)) == CreateOptions(p) <==> !CreateValueHasQuote(p)
  {
    if CreateValueHasQuote(p) {
      CreateQuoteBreaksOptions(p);
    } else {
      CreateCommandOptions(p);
    }
  }

  lemma EmptyRight<T>(s: seq<T>)
    ensures s + [] == s
  {
  }

  const RemoveHead := "/opt/omni/bin/omniusers -remove -name "

  /** The remove command for the account named by its web user name */
  function RemoveCommand(webUsername: string): string {
    RemoveHead + Quote(webUsername)
  }

  lemma RemoveHeadWord()
    ensures NoQuote(RemoveHead) && LastWord(RemoveHead) == "-name"
  {
    assert RemoveHead == "/opt/omni/bin/omniusers -remove" + " " + "-name" + " ";
    LastWordOf("/opt/omni/bin/omniusers -remove", "-name");
  }

  /** Reading the remove command back gives `-name` with the web user name
      unchanged when that holds no double quote, and never does when it holds one. */
  lemma RemoveCommandOptions(webUsername: string)
    ensures Options(RemoveCommand(webUsername)) == [("-name", webUsername)] <==> NoQuote(webUsername)
  {
    RemoveHeadWord();
    if NoQuote(webUsername) {
      OptionsCons(RemoveHead, webUsername, []);
      assert RemoveCommand(webUsername) == RemoveHead + Quote(webUsername) + [];
    } else {
      QuoteInValueBreaksOptions(RemoveHead, webUsername, []);
      assert RemoveCommand(webUsername) == RemoveHead + Quote(webUsername) + [];
    }
  }

  const AlreadyExistsMarker := "already exists in Identity Server"
  const NotExistMarker := "does not exist in Identity Server"

  /** How both helpers read a mutating command's result: check mode returns
      before running anything; then a benign marker in stderr wins over the
      exit code; then a nonzero exit code fails the run; otherwise it changed. */
  function Classify(command: string, marker: string, checkMode: bool, run: ExecResult): (r: Result<(bool, string)>)
    ensures r.Ok? ==> r.value.1 == command
    ensures r.Ok? && r.value.0 <==> !checkMode && run.rc == 0 && !Contains(run.err, marker)
    ensures r.Err? <==> !checkMode && run.rc != 0 && !Contains(run.err, marker)
    ensures r.Err? ==> r.error == FailJson("Error executing " + command + ": '" + run.err + "'")
  {
    if checkMode then Ok((false, command))
    else if Contains(run.err, marker) then Ok((false, command))
    else if run.rc != 0 then Err(FailJson("Error executing " + command + ": '" + run.err + "'"))
    else Ok((true, command))
  }

  /** `create_user`: `(changed, command)`, where an account that already exists is no change */
  function CreateUser(p: UserParams, checkMode: bool, run: ExecResult): (r: Result<(bool, string)>)
    ensures r.Ok? ==> r.value.1 == CreateCommand(p)
    ensures r.Ok? && r.value.0 <==> !checkMode && run.rc == 0 && !Contains(run.err, AlreadyExistsMarker)
  {
    Classify(CreateCommand(p), AlreadyExistsMarker, checkMode, run)
  }

  /** `remove_user`: `(changed, command)`, where an account that does not exist is no change */
  function RemoveUser(webUsername: string, checkMode: bool, run: ExecResult): (r: Result<(bool, string)>)
    ensures r.Ok? ==> r.value.1 == RemoveCommand(webUsername)
    ensures r.Ok? && r.value.0 <==> !checkMode && run.rc == 0 && !Contains(run.err, NotExistMarker)
  {
    Classify(RemoveCommand(webUsername), NotExistMarker, checkMode, run)
  }

  /** In check mode nothing is run: the outcome is unchanged and does not depend
      on what the executor would have returned. */
  lemma CheckModeIgnoresExecutor(p: UserParams, webUsername: string, run1: ExecResult, run2: ExecResult)
    ensures CreateUser(p, true, run1) == CreateUser(p, true, run2) == Ok((false, CreateCommand(p)))
    ensures RemoveUser(webUsername, true, run1) == RemoveUser(webUsername, true, run2) == Ok((false, RemoveCommand(webUsername)))
  {
  }

  /** A benign race is never fatal: with the marker in stderr the outcome is
      "unchanged" whatever the exit code. */
  lemma BenignRaceIsUnchanged(p: UserParams, webUsername: string, run: ExecResult, i: nat)
    ensures OccursAt(run.err, AlreadyExistsMarker, i) ==> CreateUser(p, false, run) == Ok((false, CreateCommand(p)))
    ensures OccursAt(run.err, NotExistMarker, i) ==> RemoveUser(webUsername, false, run) == Ok((false, RemoveCommand(webUsername)))
  {
  }
}
