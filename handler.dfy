/**
 * DynamicVariableHandler: a name-to-value table that set_variable updates in
 * place, resolve_text reads, and load_and_resolve fills from one user's
 * profile record before resolving a greeting and a system prompt.
 *
 * Reading the profile file is I/O; it enters the model as the outcome of that
 * read (missing, unparsable, or the parsed store).
 */
module Handler {
  import opened Wrappers
  import opened PyValues
  import opened Extractor
  import opened Resolver

  /** One user's flat record of attribute name to scalar value. */
  type Record = map<string, Value>

  /** The whole profile store: user identifier to record. */
  type Profiles = map<string, Record>

  /** What reading the profile file produced. */
  datatype FileOutcome = Missing | Unparsable | Parsed(profiles: Profiles)

  /** load_user_data: a missing or unparsable file gives the empty store instead of an exception. */
  function LoadUserData(file: FileOutcome): (profiles: Profiles)
    ensures !file.Parsed? ==> profiles == map[]
    ensures file.Parsed? ==> profiles == file.profiles
  {
    match file
    case Parsed(p) => p
    case _ => map[]
  }

  /** all_user_data.get(user_name, {}); a field is then read with Lookup, as user_data.get(key) gives None when absent. */
  function UserRecord(profiles: Profiles, userName: string): Record {
    if userName in profiles then profiles[userName] else map[]
  }

  /** The six names load_and_resolve sets. */
  const PopulatedNames: set<string> :=
    {"user_name", "expiry_data", "date_of_birth", "policy_number", "monthly_premium_amt", "excess_amt"}

  /** The record fields copied under their own names (expiry is the exception: it is read from
      "expiry_date" and stored as "expiry_data"). */
  const SameNameFields: set<string> := {"date_of_birth", "policy_number", "monthly_premium_amt", "excess_amt"}

  /** The table after load_and_resolve's six set_variable calls. */
  function Populate(vars: Table, userName: string, profiles: Profiles): (r: Table)
    ensures r.Keys == vars.Keys + PopulatedNames
    ensures Lookup(r, "user_name") == Str(userName)
    ensures Lookup(r, "expiry_data") == Lookup(UserRecord(profiles, userName), "expiry_date")
    ensures forall key :: key in SameNameFields ==> Lookup(r, key) == Lookup(UserRecord(profiles, userName), key)
    ensures forall key :: key !in PopulatedNames ==> Lookup(r, key) == Lookup(vars, key)
  {
    var rec := UserRecord(profiles, userName);
    vars["user_name" := Str(userName)]
        ["expiry_data" := Lookup(rec, "expiry_date")]
        ["date_of_birth" := Lookup(rec, "date_of_birth")]
        ["policy_number" := Lookup(rec, "policy_number")]
        ["monthly_premium_amt" := Lookup(rec, "monthly_premium_amt")]
        ["excess_amt" := Lookup(rec, "excess_amt")]
  }

  /** None of the populated names holds a '}' or a newline, so each one's placeholder is matched whole. */
  lemma PopulatedNamesClean()
    ensures forall key :: key in PopulatedNames ==> CleanName(key)
  {
  }

  class DynamicVariableHandler {
    var variables: Table

    /** A handler starts with an empty table. */
    constructor()
      ensures variables == map[]
      ensures forall name :: GetVariable(name) == Null
    {
      variables := map[];
    }

    /** get_variable: the stored value, None for a name never set. */
    function GetVariable(name: string): (v: Value)
      reads this
      ensures name in variables ==> v == variables[name]
      ensures name !in variables ==> v == Null
    {
      Lookup(variables, name)
    }

    /** set_variable: upsert, last write wins. */
    method SetVariable(name: string, value: Value)
      modifies this
      ensures variables == old(variables)[name := value]
      ensures GetVariable(name) == value
      ensures forall other :: other != name ==> GetVariable(other) == old(GetVariable(other))
    {
      variables := variables[name := value];
    }

    /** resolve_text: reads the table and leaves it as it was. */
    method ResolveText(text: Option<string>) returns (r: string)
      ensures r == ResolveTemplate(variables, text)
    {
      if text.None? || text.value == "" {
        return "";
      }
      r := Resolve(variables, text.value);
    }

    /** load_and_resolve: fill the table from the user's record, then resolve both templates. */
    method LoadAndResolve(userName: string, firstMessage: Option<string>, systemPrompt: Option<string>,
                          userDataFile: FileOutcome)
      returns (greeting: string, prompt: string)
      modifies this
      ensures variables == Populate(old(variables), userName, LoadUserData(userDataFile))
      ensures greeting == ResolveTemplate(variables, firstMessage)
      ensures prompt == ResolveTemplate(variables, systemPrompt)
    {
      var allUserData := LoadUserData(userDataFile);
      var userData := UserRecord(allUserData, userName);

      SetVariable("user_name", Str(userName));
      SetVariable("expiry_data", Lookup(userData, "expiry_date"));
      SetVariable("date_of_birth", Lookup(userData, "date_of_birth"));
      SetVariable("policy_number", Lookup(userData, "policy_number"));
      SetVariable("monthly_premium_amt", Lookup(userData, "monthly_premium_amt"));
      SetVariable("excess_amt", Lookup(userData, "excess_amt"));

      greeting, prompt := "", "";
      if firstMessage.Some? && firstMessage.value != "" {
        greeting := ResolveText(firstMessage);
      }
      if systemPrompt.Some? && systemPrompt.value != "" {
        prompt := ResolveText(systemPrompt);
      }
    }
  }

  /** "{user_name}" resolves to the user's identifier, unless that identifier is "" (falsy). */
  lemma UserNameResolves(vars: Table, userName: string, profiles: Profiles)
    ensures userName != "" ==> Resolve(Populate(vars, userName, profiles), "{user_name}") == userName
    ensures userName == "" ==> Resolve(Populate(vars, userName, profiles), "{user_name}") == "{user_name}"
  {
    assert Placeholder("user_name") == "{user_name}";
    ResolvePlaceholder(Populate(vars, userName, profiles), "user_name");
  }

  /** A field copied under its own name resolves to the record's value when truthy, else stays literal. */
  lemma FieldResolves(vars: Table, userName: string, profiles: Profiles, key: string)
    requires key in SameNameFields
    ensures var v := Lookup(UserRecord(profiles, userName), key);
      Resolve(Populate(vars, userName, profiles), Placeholder(key))
      == if Truthy(v) then Stringify(v) else Placeholder(key)
  {
    PopulatedNamesClean();
    ResolvePlaceholder(Populate(vars, userName, profiles), key);
  }

  /**
   * The expiry value is stored under "expiry_data", so on a fresh handler a
   * "{expiry_date}" placeholder stays literal whatever the record holds.
   */
  lemma ExpiryDateStaysLiteral(userName: string, profiles: Profiles)
    ensures Resolve(Populate(map[], userName, profiles), "{expiry_date}") == "{expiry_date}"
  {
    assert "expiry_date" !in PopulatedNames;
    assert Placeholder("expiry_date") == "{expiry_date}";
    ResolvePlaceholder(Populate(map[], userName, profiles), "expiry_date");
  }

  /** "{expiry_data}" is the placeholder that receives the record's "expiry_date" value. */
  lemma ExpiryDataGetsExpiryDate(vars: Table, userName: string, profiles: Profiles)
    ensures var v := Lookup(UserRecord(profiles, userName), "expiry_date");
      Resolve(Populate(vars, userName, profiles), "{expiry_data}")
      == if Truthy(v) then Stringify(v) else "{expiry_data}"
  {
    assert Placeholder("expiry_data") == "{expiry_data}";
    ResolvePlaceholder(Populate(vars, userName, profiles), "expiry_data");
  }

  /** With the file missing or unparsable, every profile placeholder stays literal on a fresh handler. */
  lemma UnreadableFileKeepsPlaceholders(file: FileOutcome, userName: string, key: string)
    requires !file.Parsed?
    requires key in PopulatedNames - {"user_name"}
    ensures Resolve(Populate(map[], userName, LoadUserData(file)), Placeholder(key)) == Placeholder(key)
  {
    PopulatedNamesClean();
    ResolvePlaceholder(Populate(map[], userName, LoadUserData(file)), key);
  }

  /** A template made of literal text and one placeholder. */
  lemma TemplateThenPlaceholder(vars: Table, t: string, name: string)
    requires '{' !in t && CleanName(name)
    ensures ResolveTemplate(vars, Some(t + Placeholder(name))) == t + Replacement(vars, name)
  {
    ResolveTextThenPlaceholder(vars, t, name);
  }

  /**
   * The scenarios below hold whatever the table held before the call, since every
   * name their templates use is overwritten.
   *
   * A user with an empty record: "Hi {user_name}" and no system prompt give ("Hi alice", "").
   */
  lemma AliceGreeting(before: Table)
    ensures var vars := Populate(before, "alice", LoadUserData(Parsed(map["alice" := map[]])));
      ResolveTemplate(vars, Some("Hi " + Placeholder("user_name"))) == "Hi alice"
      && ResolveTemplate(vars, None) == ""
  {
    var vars := Populate(before, "alice", LoadUserData(Parsed(map["alice" := map[]])));
    TemplateThenPlaceholder(vars, "Hi ", "user_name");
  }

  /** The store of the next two scenarios. */
  const BobStore: Profiles := map["bob" := map["policy_number" := Str("P123"), "excess_amt" := Int(500)]]

  lemma BobFields()
    ensures Lookup(UserRecord(BobStore, "bob"), "policy_number") == Str("P123")
    ensures Lookup(UserRecord(BobStore, "bob"), "excess_amt") == Int(500)
  {
    assert UserRecord(BobStore, "bob") == map["policy_number" := Str("P123"), "excess_amt" := Int(500)];
  }

  /** A string field of the record is substituted: "Policy {policy_number}" gives "Policy P123". */
  lemma BobPolicy(before: Table)
    ensures ResolveTemplate(Populate(before, "bob", LoadUserData(Parsed(BobStore))), Some("Policy " + Placeholder("policy_number")))
      == "Policy P123"
  {
    var vars := Populate(before, "bob", LoadUserData(Parsed(BobStore)));
    var key := "policy_number";
    assert key in SameNameFields;
    BobFields();
    TemplateThenPlaceholder(vars, "Policy ", key);
  }

  /** An int field is substituted as its numeral: "Your excess is {excess_amt}" gives "Your excess is 500". */
  lemma BobExcess(before: Table)
    ensures ResolveTemplate(Populate(before, "bob", LoadUserData(Parsed(BobStore))), Some("Your excess is " + Placeholder("excess_amt")))
      == "Your excess is 500"
  {
    var vars := Populate(before, "bob", LoadUserData(Parsed(BobStore)));
    var key := "excess_amt";
    assert key in SameNameFields;
    BobFields();
    ExcessNumeral();
    TemplateThenPlaceholder(vars, "Your excess is ", key);
  }

  /** str(500) is "500". */
  lemma ExcessNumeral()
    ensures Stringify(Int(500)) == "500"
  {
    assert Decimal(5) == "5";
    assert Decimal(50) == "50";
  }

  /** A user absent from the store still has their name substituted. */
  lemma CarolGreeting(before: Table)
    ensures ResolveTemplate(Populate(before, "carol", LoadUserData(Parsed(map[]))), Some("Hello " + Placeholder("user_name")))
      == "Hello carol"
  {
    var vars := Populate(before, "carol", LoadUserData(Parsed(map[])));
    TemplateThenPlaceholder(vars, "Hello ", "user_name");
  }

  /** For a user absent from the store a profile placeholder stays literal, without an error. */
  lemma CarolBirthDate(before: Table)
    ensures var template := "DOB " + Placeholder("date_of_birth");
      ResolveTemplate(Populate(before, "carol", LoadUserData(Parsed(map[]))), Some(template)) == template
  {
    var vars := Populate(before, "carol", LoadUserData(Parsed(map[])));
    var key := "date_of_birth";
    assert key in SameNameFields;
    assert Lookup(vars, key) == Null;
    TemplateThenPlaceholder(vars, "DOB ", key);
  }
}
