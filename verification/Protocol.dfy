/**
 * The code that lists a protocol's parameters and turns those given into an account (src/protocol.c, src/connection.c),
 * against the functions of Parameters.
 */
module Protocol {
  import opened Wrappers
  import opened Parameters

  class HazeProtocol {
    const info: ProtocolInfo
    /** The parameters, once they have been listed. */
    var paramspecs: Option<seq<ParamSpec>>
    /** HAZE_PROTOCOL_FLAG_JABBER_CONNECTION_SECURITY */
    var connectionSecurity: bool

    ghost predicate Valid()
      reads this
    {
      if paramspecs.Some? then paramspecs.value == Specs(info) && connectionSecurity == SecurityFolded(info)
      else !connectionSecurity
    }

    constructor (info: ProtocolInfo)
      ensures Valid() && this.info == info
    {
      this.info := info;
      paramspecs, connectionSecurity := None, false;
    }

    /** haze_protocol_lookup_param */
    method LookupParam(purpleName: Name) returns (telepathyName: Option<Name>)
      ensures telepathyName == Lookup(info.renames, purpleName)
    {
      var m := 0;
      while m < |info.renames|
        invariant 0 <= m <= |info.renames|
        invariant Lookup(info.renames, purpleName) == Lookup(info.renames[m..], purpleName)
      {
        if info.renames[m].purpleName == purpleName {
          return Some(info.renames[m].telepathyName);
        }
        m := m + 1;
      }
      telepathyName := None;
    }

    /** _translate_protocol_usersplits */
    method TranslateUserSplits(before: seq<ParamSpec>) returns (specs: seq<ParamSpec>)
      ensures specs == before + SplitSpecs(info, |info.splits|)
    {
      specs := before;
      for i := 1 to |info.splits| + 1
        invariant specs == before + SplitSpecs(info, i - 1)
      {
        var userSplit := UserSplitName(i);
        var renamed := LookupParam(userSplit);
        var name := if renamed.Some? then renamed.value else userSplit;
        specs := specs + [ParamSpec(name, DString, Some(userSplit), Traits(false, false, Some(NullString), AnyValue))];
      }
    }

    /** _translate_protocol_option */
    method TranslateOption(o: AccountOption) returns (spec: Option<ParamSpec>)
      ensures spec == OptionSpec(info, o)
    {
      var renamed := LookupParam(o.prefName);
      if renamed.Some? && renamed.value == IGNORE {
        return None;
      }
      var name := if renamed.Some? then renamed.value else o.prefName;
      if HasPrefix(name, "facebook_") {
        name := name[|"facebook_"|..];
      }
      name := Dashed(name);
      var dtype: DType;
      var required, default, filter := false, Some(o.default), AnyValue;
      match o.prefType {
        case BooleanPref => dtype := DBool;
        case IntPref => dtype := if HasSuffix(name, "port") then DUint16 else DInt32;
        case StringPref =>
          dtype := DString;
          required := IsPersonName(info.prplId, name);
          if required || o.default.NullString? || o.default == Str("") {
            default := None;
          }
        case StringListPref =>
          dtype, filter := DString, OneOf(o.choices);
          if o.default.NullString? || o.default == Str("") {
            default := None;
          }
        case OtherPref => return None;
      }
      if name == "server" {
        filter := NoBlanks;
      }
      var secret := HasSuffix(name, "-password");
      spec := Some(ParamSpec(name, dtype, Some(o.prefName), Traits(required, secret, default, filter)));
    }

    /** jabber_fixup */
    method JabberFixup(before: seq<ParamSpec>) returns (specs: seq<ParamSpec>)
      requires info.jabber && !connectionSecurity
      modifies this`connectionSecurity
      ensures connectionSecurity == SecurityFolded(info)
      ensures specs == before + SecuritySpecs(info)
    {
      var default := FindSecurity();
      connectionSecurity := default.Some?;
      specs := before;
      if connectionSecurity {
        var oldSsl, requireEncryption := DefaultsFor(default.value);
        specs := specs + [SecuritySpec(OLD_SSL, oldSsl)] + [SecuritySpec(REQUIRE_ENCRYPTION, requireEncryption)];
      }
    }

    /** The loop of jabber_fixup: the default of connection_security, if the protocol has that option. */
    method FindSecurity() returns (default: Option<Value>)
      requires info.jabber
      ensures default == if SecurityFolded(info) then Some(SecurityDefault(info.options)) else None
    {
      var i := 0;
      while i < |info.options| && info.options[i].prefName != CONNECTION_SECURITY
        invariant 0 <= i <= |info.options|
        invariant forall j: nat | j < i :: info.options[j].prefName != CONNECTION_SECURITY
        invariant SecurityDefault(info.options) == SecurityDefault(info.options[i..])
      {
        i := i + 1;
      }
      if i < |info.options| {
        assert info.options[i] in info.options;
        default := Some(info.options[i].default);
      } else {
        default := None;
      }
    }

    /** What the default of connection_security, if it is understood, makes of the two parameters. */
    method DefaultsFor(default: Value) returns (oldSsl: Option<bool>, requireEncryption: Option<bool>)
      ensures match SecurityDefaults(default)
              case Some((o, r)) => oldSsl == Some(o) && requireEncryption == Some(r)
              case None => oldSsl == None && requireEncryption == None
    {
      if default == Str("old_ssl") {
        oldSsl, requireEncryption := Some(true), Some(true);
      } else if default == Str("require_tls") {
        oldSsl, requireEncryption := Some(false), Some(true);
      } else if default == Str("opportunistic_tls") {
        oldSsl, requireEncryption := Some(false), Some(false);
      } else {
        oldSsl, requireEncryption := None, None;
      }
    }

    /** The parameters for the options, after those listed already. */
    method TranslateOptions(before: seq<ParamSpec>) returns (specs: seq<ParamSpec>)
      ensures specs == before + OptionSpecs(info, info.options)
    {
      specs := before;
      for i := 0 to |info.options|
        invariant specs == before + OptionSpecs(info, info.options[..i])
      {
        assert info.options[..i + 1][..i] == info.options[..i];
        var spec := TranslateOption(info.options[i]);
        if spec.Some? {
          specs := specs + [spec.value];
        }
      }
      assert info.options[..|info.options|] == info.options;
    }

    /** The parts of the username, for a protocol that has a name for the first of them. */
    method TranslateShownSplits(before: seq<ParamSpec>) returns (specs: seq<ParamSpec>)
      ensures specs == before + ShownSplitSpecs(info)
    {
      specs := before;
      if info.splits != [] {
        var first := LookupParam(UserSplitName(1));
        if first.Some? {
          specs := TranslateUserSplits(specs);
        }
      }
    }

    /** haze_protocol_get_parameters: lists them the first time, and from then on gives the list again. */
    method GetParameters() returns (specs: seq<ParamSpec>)
      requires Valid()
      modifies this
      ensures Valid() && paramspecs == Some(specs) && specs == Specs(info)
    {
      if paramspecs.Some? {
        return paramspecs.value;
      }
      specs := ListParameters();
      paramspecs := Some(specs);
    }

    method ListParameters() returns (specs: seq<ParamSpec>)
      requires !connectionSecurity
      modifies this`connectionSecurity
      ensures specs == Specs(info) && connectionSecurity == SecurityFolded(info)
    {
      specs := TranslateShownSplits([ACCOUNT_SPEC]);
      specs := AddPassword(specs);
      specs := TranslateOptions(specs);
      specs := Fixup(specs);
    }

    method AddPassword(before: seq<ParamSpec>) returns (specs: seq<ParamSpec>)
      ensures specs == before + PasswordSpecs(info)
    {
      specs := before;
      if !info.noPassword {
        specs := specs + [PASSWORD_SPEC];
      }
    }

    /** The fixup of a protocol that has one. */
    method Fixup(before: seq<ParamSpec>) returns (specs: seq<ParamSpec>)
      requires !connectionSecurity
      modifies this`connectionSecurity
      ensures connectionSecurity == SecurityFolded(info)
      ensures specs == before + SecuritySpecs(info)
    {
      specs := before;
      if info.jabber {
        specs := JabberFixup(specs);
      }
    }

    /** haze_protocol_translate_parameters; the assertion at its end is the one here. */
    method TranslateParameters(asv: Params) returns (purpleParams: Params)
      requires Valid() && Known(info, asv)
      modifies this
      ensures Valid() && purpleParams == PurpleParams(info, asv)
    {
      var specs := GetParameters();
      var unused;
      purpleParams, unused := TranslateGiven(specs, asv);
      if connectionSecurity {
        var security := FoldSecurity(asv);
        purpleParams := purpleParams[CONNECTION_SECURITY := security];
        unused := unused - {OLD_SSL} - {REQUIRE_ENCRYPTION};
      }
      assert unused == {} by {
        forall name | name in asv
          ensures name !in unused
        {
          var spec :| spec in specs && spec.name == name;
          NothingUnused(info, spec);
        }
      }
    }

    /** haze_protocol_identify_account */
    method IdentifyAccount(asv: Params) returns (username: string)
      requires Valid() && Accepted(info, asv) && Distinct(info)
      modifies this
      ensures Valid()
      ensures ACCOUNT in PurpleParams(info, asv) && PurpleParams(info, asv)[ACCOUNT].Str?
      ensures username == Connected(info, asv).0.username
    {
      AcceptedIsKnown(info, asv);
      var purpleParams := TranslateParameters(asv);
      AccountTranslated(info, asv);
      SplitsAreStrings(info, asv);
      var rest;
      username, rest := GetUsername(purpleParams, info.splits, false);
    }

    /** haze_protocol_new_connection; accounts are the usernames in use already. */
    method NewConnection(asv: Params, accounts: set<string>) returns (conn: Option<ConnectionParameters>)
      requires Valid() && Accepted(info, asv) && Distinct(info)
      modifies this
      ensures Valid()
      ensures ACCOUNT in PurpleParams(info, asv) && PurpleParams(info, asv)[ACCOUNT].Str?
      ensures conn.None? <==> Connected(info, asv).0.username in accounts
      ensures conn.Some? ==> conn.value.account == Some(Connected(info, asv).0)
      ensures conn.Some? ==> conn.value.parameters == Connected(info, asv).1
    {
      AcceptedIsKnown(info, asv);
      var purpleParams := TranslateParameters(asv);
      AccountTranslated(info, asv);
      SplitsAreStrings(info, asv);
      var username, rest := GetUsername(purpleParams, info.splits, true);
      var password := None;
      if PASSWORD in rest && rest[PASSWORD].Str? {
        password := Some(rest[PASSWORD].s);
        rest := rest - {PASSWORD};
      }
      var c := new ConnectionParameters(username, password, rest);
      var created := c.CreateAccount(info.options, accounts);
      conn := if created then Some(c) else None;
    }
  }

  /** The loop over the parameters: those given, by their libpurple names, and the names that no parameter has used. */
  method TranslateGiven(specs: seq<ParamSpec>, asv: Params) returns (purpleParams: Params, unused: set<Name>)
    ensures purpleParams == Translated(specs, asv)
    ensures unused <= asv.Keys
    ensures forall spec | spec in specs && spec.setter.Some? :: spec.name !in unused
  {
    unused := asv.Keys;
    purpleParams := map[];
    for i := 0 to |specs|
      invariant purpleParams == Translated(specs[..i], asv)
      invariant unused <= asv.Keys
      invariant forall j: nat | j < i && specs[j].setter.Some? :: specs[j].name !in unused
    {
      assert specs[..i + 1][..i] == specs[..i];
      var spec := specs[i];
      if spec.name in asv && spec.setter.Some? {
        purpleParams := purpleParams[spec.setter.value := asv[spec.name]];
        unused := unused - {spec.name};
      }
    }
    assert specs[..|specs|] == specs;
  }

  /** The choice of connection_security for a protocol whose parameters were mended. */
  method FoldSecurity(asv: Params) returns (security: Value)
    ensures security == Security(asv)
  {
    if GetBoolean(asv, OLD_SSL) {
      security := Str("old_ssl");
    } else if GetBoolean(asv, REQUIRE_ENCRYPTION) {
      security := Str("require_tls");
    } else {
      security := Str("opportunistic_tls");
    }
  }

  /** What telepathy-glib guarantees of the parts of a username. */
  ghost predicate StringSplits(splits: seq<UserSplit>, params: Params) {
    forall i: nat | 1 <= i <= |splits| && UserSplitName(i) in params :: params[UserSplitName(i)].Str?
  }

  lemma SplitsAreStrings(p: ProtocolInfo, asv: Params)
    requires Distinct(p) && Accepted(p, asv)
    ensures StringSplits(p.splits, PurpleParams(p, asv))
  {
    forall i: nat | 1 <= i <= |p.splits| && UserSplitName(i) in PurpleParams(p, asv)
      ensures PurpleParams(p, asv)[UserSplitName(i)].Str?
    {
      SplitTranslated(p, asv, i);
    }
  }

  /** haze_protocol_get_username: the same name whether or not its parts are taken out of the table as it is put
      together. */
  method GetUsername(params: Params, splits: seq<UserSplit>, remove: bool) returns (username: string, rest: Params)
    requires ACCOUNT in params && params[ACCOUNT].Str? && StringSplits(splits, params)
    ensures username == Username(splits, params)
    ensures rest == if remove then WithoutUsername(splits, params) else params
  {
    username, rest := params[ACCOUNT].s, params;
    if splits != [] && UserSplitName(1) in params {
      username, rest := AppendSplits(params, splits, remove);
    }
    if remove {
      rest := rest - {ACCOUNT};
    }
  }

  method AppendSplits(params: Params, splits: seq<UserSplit>, remove: bool) returns (username: string, rest: Params)
    requires ACCOUNT in params && params[ACCOUNT].Str? && StringSplits(splits, params)
    ensures username == params[ACCOUNT].s + SplitText(splits, params, |splits|)
    ensures rest == params - if remove then SplitNames(|splits|) else {}
  {
    username, rest := params[ACCOUNT].s, params;
    for i := 1 to |splits| + 1
      invariant username == params[ACCOUNT].s + SplitText(splits, params, i - 1)
      invariant rest == params - if remove then SplitNames(i - 1) else {}
    {
      NextSplitNameIsNew(i - 1);
      var name := UserSplitName(i);
      assert name in rest <==> name in params;
      var text := if name in rest then rest[name].s else splits[i - 1].default;
      username := username + [splits[i - 1].separator] + text;
      if remove {
        rest := rest - {name};
      }
    }
  }

  class ConnectionParameters {
    const username: string
    const password: Option<string>
    var parameters: Params
    var account: Option<Account>

    constructor (username: string, password: Option<string>, parameters: Params)
      ensures this.username == username && this.password == password
      ensures this.parameters == parameters && account.None?
    {
      this.username, this.password, this.parameters, account := username, password, parameters, None;
    }

    /** set_option */
    method SetOption(o: AccountOption)
      requires account.Some?
      modifies this
      ensures account.Some? && account.value.username == old(account.value.username)
      ensures account.value.password == old(account.value.password)
      ensures var given, left := old(account.value.options), old(parameters);
              if o.prefName !in left then account.value.options == given && parameters == left
              else
                var value := OptionValue(o.prefType, left[o.prefName]);
                && account.value.options == (if value.Some? then given[o.prefName := value.value] else given)
                && parameters == left - {o.prefName}
    {
      if o.prefName !in parameters {
        return;
      }
      var value := parameters[o.prefName];
      match o.prefType {
        case BooleanPref => Set(o.prefName, Bool(value.Bool? && value.b));
        case IntPref => Set(o.prefName, Int(GetInt32(value)));
        case StringPref => Set(o.prefName, if value.Str? then value else NullString);
        case StringListPref => Set(o.prefName, if value.Str? then value else NullString);
        case OtherPref =>
      }
      parameters := parameters - {o.prefName};
    }

    method Set(name: Name, value: Value)
      requires account.Some?
      modifies this`account
      ensures account == Some(old(account.value).(options := old(account.value.options)[name := value]))
    {
      account := Some(account.value.(options := account.value.options[name := value]));
    }

    /** haze_connection_create_account; the parameters that remain are the ones it warns of. */
    method CreateAccount(options: seq<AccountOption>, accounts: set<string>) returns (created: bool)
      requires account.None?
      modifies this
      ensures created <==> username !in accounts
      ensures !created ==> account.None? && parameters == old(parameters)
      ensures created ==> var (given, left) := SetOptions(options, old(parameters));
                          account == Some(Account(username, password, given)) && parameters == left
    {
      if username in accounts {
        return false;
      }
      account := Some(Account(username, password, map[]));
      for i := 0 to |options|
        invariant account.Some? && account.value.username == username && account.value.password == password
        invariant (account.value.options, parameters) == SetOptions(options[..i], old(parameters))
      {
        assert options[..i + 1][..i] == options[..i];
        SetOption(options[i]);
      }
      assert options[..|options|] == options;
      created := true;
    }
  }
}
