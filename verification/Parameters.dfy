/**
 * Connection parameters (src/protocol.c, src/connection.c). A protocol's parameters are listed from what libpurple
 * says of the protocol; those given for a connection are translated back to libpurple's names, and then used up one
 * by one: as parts of the username, as the password, as options of the account.
 */
module Parameters {
  import opened Wrappers

  type Name = string

  /** A value; NullString is what is read from a value that is no string. */
  datatype Value = Str(s: string) | Bool(b: bool) | Int(n: int) | NullString

  datatype PrefType = BooleanPref | IntPref | StringPref | StringListPref | OtherPref

  /** PurpleAccountOption, with its default and the values that an option with a list of values can take. */
  datatype AccountOption = AccountOption(prefName: Name, prefType: PrefType, default: Value, choices: set<string>)

  /** PurpleAccountUserSplit */
  datatype UserSplit = UserSplit(separator: char, default: string)

  datatype Rename = Rename(purpleName: Name, telepathyName: Name)

  /** A protocol: what libpurple says of it, the renamings haze knows, and whether haze mends its parameters as for
      jabber. */
  datatype ProtocolInfo = ProtocolInfo(prplId: string, options: seq<AccountOption>, splits: seq<UserSplit>,
                                       noPassword: bool, renames: seq<Rename>, jabber: bool)

  datatype DType = DString | DBool | DUint16 | DInt32

  /** What a value must pass before it is accepted. */
  datatype Filter = AnyValue | NoBlanks | OneOf(choices: set<string>)

  /** The flags, default and filter of a parameter. A default of NullString is one that is flagged but has no value. */
  datatype Traits = Traits(required: bool, secret: bool, default: Option<Value>, filter: Filter)

  /** TpCMParamSpec; setter is the parameter's name in libpurple, if it has one. */
  datatype ParamSpec = ParamSpec(name: Name, dtype: DType, setter: Option<Name>, traits: Traits)

  type Params = map<Name, Value>

  const ACCOUNT := "account"
  const PASSWORD := "password"
  const OLD_SSL := "old-ssl"
  const REQUIRE_ENCRYPTION := "require-encryption"
  const CONNECTION_SECURITY := "connection_security"
  const IGNORE := "IGNORE"

  // ----- Names -----

  function Digit(d: nat): char
    requires d < 10
  {
    '0' + d as char
  }

  /** A number as %d prints it. */
  function Decimal(n: nat): (s: string)
    ensures s != []
  {
    (if n < 10 then [] else Decimal(n / 10)) + [Digit(n % 10)]
  }

  function UserSplitName(i: nat): Name {
    "usersplit" + Decimal(i)
  }

  lemma {:induction false} DecimalInjective(m: nat, n: nat)
    ensures Decimal(m) == Decimal(n) ==> m == n
  {
    if Decimal(m) == Decimal(n) {
      var s := Decimal(m);
      assert s[|s| - 1] == Digit(m % 10) == Digit(n % 10);
      if m >= 10 && n >= 10 {
        assert Decimal(m / 10) == s[..|s| - 1] == Decimal(n / 10);
        DecimalInjective(m / 10, n / 10);
      }
    }
  }

  lemma UserSplitNameInjective(i: nat, j: nat)
    requires UserSplitName(i) == UserSplitName(j)
    ensures i == j
  {
    assert UserSplitName(i)[9..] == Decimal(i) && UserSplitName(j)[9..] == Decimal(j);
    DecimalInjective(i, j);
  }

  lemma UserSplitNameIsOwn(i: nat)
    ensures UserSplitName(i) != ACCOUNT && UserSplitName(i) != PASSWORD && ACCOUNT != PASSWORD
  {
    assert UserSplitName(i)[0] == 'u' && ACCOUNT[0] == 'a' && PASSWORD[0] == 'p';
  }

  ghost function SplitNames(n: nat): set<Name> {
    if n == 0 then {} else SplitNames(n - 1) + {UserSplitName(n)}
  }

  lemma {:induction false} SplitNamesAre(n: nat, name: Name)
    ensures name in SplitNames(n) <==> exists i: nat | 1 <= i <= n :: name == UserSplitName(i)
  {
    if n > 0 {
      SplitNamesAre(n - 1, name);
      if i: nat :| 1 <= i <= n && name == UserSplitName(i) {
        assert i <= n - 1 || name == UserSplitName(n);
      }
    }
  }

  lemma NextSplitNameIsNew(n: nat)
    ensures UserSplitName(n + 1) !in SplitNames(n)
  {
    SplitNamesAre(n, UserSplitName(n + 1));
    if UserSplitName(n + 1) in SplitNames(n) {
      var i: nat :| 1 <= i <= n && UserSplitName(n + 1) == UserSplitName(i);
      UserSplitNameInjective(n + 1, i);
    }
  }

  // ----- The parameters of a protocol -----

  ghost function Lookup(renames: seq<Rename>, purpleName: Name): Option<Name> {
    if renames == [] then None
    else if renames[0].purpleName == purpleName then Some(renames[0].telepathyName)
    else Lookup(renames[1..], purpleName)
  }

  predicate HasPrefix(s: string, prefix: string) {
    |prefix| <= |s| && s[..|prefix|] == prefix
  }

  predicate HasSuffix(s: string, suffix: string) {
    |suffix| <= |s| && s[|s| - |suffix|..] == suffix
  }

  function Dashed(s: string): string {
    seq(|s|, i requires 0 <= i < |s| => if s[i] == '_' then '-' else s[i])
  }

  /** The Telepathy name of an option: without the prefix facebook_, and with hyphens. */
  function OptionName(name: Name): Name {
    Dashed(if HasPrefix(name, "facebook_") then name[9..] else name)
  }

  function OptionType(prefType: PrefType, name: Name): Option<DType> {
    match prefType
    case BooleanPref => Some(DBool)
    case IntPref => Some(if HasSuffix(name, "port") then DUint16 else DInt32)
    case StringPref => Some(DString)
    case StringListPref => Some(DString)
    case OtherPref => None
  }

  /** The names that local XMPP wants of its user. */
  predicate IsPersonName(prplId: string, name: Name) {
    prplId == "prpl-bonjour" && (name == "first-name" || name == "last-name")
  }

  function OptionTraits(prplId: string, o: AccountOption, name: Name): Traits {
    var required := o.prefType.StringPref? && IsPersonName(prplId, name);
    Traits(required,
           HasSuffix(name, "-password"),
           if required then None else OptionDefault(o),
           if name == "server" then NoBlanks else if o.prefType.StringListPref? then OneOf(o.choices) else AnyValue)
  }

  /** Strings that are empty are no defaults. */
  function OptionDefault(o: AccountOption): Option<Value> {
    var isString := o.prefType.StringPref? || o.prefType.StringListPref?;
    if isString && (o.default.NullString? || o.default == Str("")) then None
    else Some(o.default)
  }

  ghost function OptionSpec(p: ProtocolInfo, o: AccountOption): Option<ParamSpec> {
    var renamed := Lookup(p.renames, o.prefName);
    if renamed == Some(IGNORE) then None
    else
      var name := OptionName(if renamed.Some? then renamed.value else o.prefName);
      match OptionType(o.prefType, name)
      case None => None
      case Some(dtype) => Some(ParamSpec(name, dtype, Some(o.prefName), OptionTraits(p.prplId, o, name)))
  }

  ghost function SplitSpec(p: ProtocolInfo, i: nat): ParamSpec {
    var renamed := Lookup(p.renames, UserSplitName(i));
    ParamSpec(if renamed.Some? then renamed.value else UserSplitName(i), DString, Some(UserSplitName(i)),
              Traits(false, false, Some(NullString), AnyValue))
  }

  const ACCOUNT_SPEC := ParamSpec(ACCOUNT, DString, Some(ACCOUNT), Traits(true, false, None, AnyValue))
  const PASSWORD_SPEC := ParamSpec(PASSWORD, DString, Some(PASSWORD), Traits(false, true, None, AnyValue))

  function SecuritySpec(name: Name, default: Option<bool>): ParamSpec {
    ParamSpec(name, DBool, None,
              Traits(false, false, if default.Some? then Some(Bool(default.value)) else None, AnyValue))
  }

  /** The defaults for old-ssl and require-encryption when connection_security has the given default, if it is one
      known. */
  function SecurityDefaults(default: Value): Option<(bool, bool)> {
    if default == Str("old_ssl") then Some((true, true))
    else if default == Str("require_tls") then Some((false, true))
    else if default == Str("opportunistic_tls") then Some((false, false))
    else None
  }

  /** The default of the first option called connection_security. */
  ghost function SecurityDefault(options: seq<AccountOption>): Value {
    if options == [] then NullString
    else if options[0].prefName == CONNECTION_SECURITY then options[0].default
    else SecurityDefault(options[1..])
  }

  ghost function OldSslSpec(p: ProtocolInfo): ParamSpec {
    var defaults := SecurityDefaults(SecurityDefault(p.options));
    SecuritySpec(OLD_SSL, if defaults.Some? then Some(defaults.value.0) else None)
  }

  ghost function RequireEncryptionSpec(p: ProtocolInfo): ParamSpec {
    var defaults := SecurityDefaults(SecurityDefault(p.options));
    SecuritySpec(REQUIRE_ENCRYPTION, if defaults.Some? then Some(defaults.value.1) else None)
  }

  /** Whether the parts of the username are parameters of their own. */
  ghost predicate SplitsShown(p: ProtocolInfo) {
    p.splits != [] && Lookup(p.renames, UserSplitName(1)).Some?
  }

  /** Whether old-ssl and require-encryption stand for connection_security. */
  ghost predicate SecurityFolded(p: ProtocolInfo) {
    p.jabber && exists o | o in p.options :: o.prefName == CONNECTION_SECURITY
  }

  ghost function SplitSpecs(p: ProtocolInfo, n: nat): seq<ParamSpec> {
    if n == 0 then [] else SplitSpecs(p, n - 1) + [SplitSpec(p, n)]
  }

  ghost function OptionSpecs(p: ProtocolInfo, options: seq<AccountOption>): seq<ParamSpec> {
    if options == [] then []
    else
      var spec := OptionSpec(p, options[|options| - 1]);
      OptionSpecs(p, options[..|options| - 1]) + if spec.Some? then [spec.value] else []
  }

  ghost function Specs(p: ProtocolInfo): seq<ParamSpec> {
    [ACCOUNT_SPEC] + ShownSplitSpecs(p) + PasswordSpecs(p) + OptionSpecs(p, p.options) + SecuritySpecs(p)
  }

  ghost function ShownSplitSpecs(p: ProtocolInfo): seq<ParamSpec> {
    if SplitsShown(p) then SplitSpecs(p, |p.splits|) else []
  }

  function PasswordSpecs(p: ProtocolInfo): seq<ParamSpec> {
    if p.noPassword then [] else [PASSWORD_SPEC]
  }

  ghost function SecuritySpecs(p: ProtocolInfo): seq<ParamSpec> {
    if SecurityFolded(p) then [OldSslSpec(p), RequireEncryptionSpec(p)] else []
  }

  // ----- From Telepathy's names to libpurple's -----

  ghost function Translated(specs: seq<ParamSpec>, asv: Params): Params {
    if specs == [] then map[]
    else
      var spec, rest := specs[|specs| - 1], Translated(specs[..|specs| - 1], asv);
      if spec.setter.Some? && spec.name in asv then rest[spec.setter.value := asv[spec.name]] else rest
  }

  function GetBoolean(params: Params, name: Name): bool {
    name in params && params[name].Bool? && params[name].b
  }

  function Security(asv: Params): Value {
    if GetBoolean(asv, OLD_SSL) then Str("old_ssl")
    else if GetBoolean(asv, REQUIRE_ENCRYPTION) then Str("require_tls")
    else Str("opportunistic_tls")
  }

  ghost function PurpleParams(p: ProtocolInfo, asv: Params): Params {
    var params := Translated(Specs(p), asv);
    if SecurityFolded(p) then params[CONNECTION_SECURITY := Security(asv)] else params
  }

  // ----- The username -----

  ghost function SplitText(splits: seq<UserSplit>, params: Params, n: nat): string
    requires n <= |splits|
  {
    if n == 0 then ""
    else
      var name := UserSplitName(n);
      SplitText(splits, params, n - 1) + [splits[n - 1].separator]
      + if name in params && params[name].Str? then params[name].s else splits[n - 1].default
  }

  ghost predicate UsesSplits(splits: seq<UserSplit>, params: Params) {
    splits != [] && UserSplitName(1) in params
  }

  ghost function Username(splits: seq<UserSplit>, params: Params): string
    requires ACCOUNT in params && params[ACCOUNT].Str?
  {
    params[ACCOUNT].s + if UsesSplits(splits, params) then SplitText(splits, params, |splits|) else ""
  }

  ghost function WithoutUsername(splits: seq<UserSplit>, params: Params): Params {
    params - (if UsesSplits(splits, params) then SplitNames(|splits|) else {}) - {ACCOUNT}
  }

  // ----- The account's options -----

  const INT32_MIN: int := -0x8000_0000
  const INT32_MAX: int := 0x7fff_ffff

  function GetInt32(v: Value): int {
    if v.Int? && INT32_MIN <= v.n <= INT32_MAX then v.n else 0
  }

  /** What the account gets for an option; None for a type haze does not handle. */
  function OptionValue(prefType: PrefType, v: Value): Option<Value> {
    match prefType
    case BooleanPref => Some(Bool(v.Bool? && v.b))
    case IntPref => Some(Int(GetInt32(v)))
    case StringPref => Some(if v.Str? then v else NullString)
    case StringListPref => Some(if v.Str? then v else NullString)
    case OtherPref => None
  }

  datatype Account = Account(username: string, password: Option<string>, options: Params)

  /** The options set and the parameters left over when these options have been looked at. */
  ghost function SetOptions(options: seq<AccountOption>, params: Params): (Params, Params) {
    if options == [] then (map[], params)
    else
      var o, (given, left) := options[|options| - 1], SetOptions(options[..|options| - 1], params);
      if o.prefName !in left then (given, left)
      else
        var value := OptionValue(o.prefType, left[o.prefName]);
        (if value.Some? then given[o.prefName := value.value] else given, left - {o.prefName})
  }

  /** What haze_protocol_new_connection makes of the parameters: the account, and what is left over. */
  ghost function Connected(p: ProtocolInfo, asv: Params): (Account, Params)
    requires ACCOUNT in PurpleParams(p, asv) && PurpleParams(p, asv)[ACCOUNT].Str?
  {
    var params := PurpleParams(p, asv);
    var rest := WithoutUsername(p.splits, params);
    var password := if PASSWORD in rest && rest[PASSWORD].Str? then Some(rest[PASSWORD].s) else None;
    var (options, left) := SetOptions(p.options, if password.Some? then rest - {PASSWORD} else rest);
    (Account(Username(p.splits, params), password, options), left)
  }

  // ----- What telepathy-glib lets through -----

  predicate HasType(v: Value, dtype: DType) {
    match dtype
    case DString => v.Str?
    case DBool => v.Bool?
    case DUint16 => v.Int? && 0 <= v.n < 0x1_0000
    case DInt32 => v.Int? && INT32_MIN <= v.n <= INT32_MAX
  }

  /** Only parameters of the protocol. */
  ghost predicate Known(p: ProtocolInfo, asv: Params) {
    forall name | name in asv :: exists spec | spec in Specs(p) :: spec.name == name
  }

  /** Only parameters of the protocol, each of its type, and always the account. */
  ghost predicate Accepted(p: ProtocolInfo, asv: Params) {
    && ACCOUNT in asv
    && forall name | name in asv ::
         exists spec | spec in Specs(p) :: spec.name == name && HasType(asv[name], spec.dtype)
  }

  /**
   * Names are not shared: no two parameters have one name in Telepathy, no two options one in libpurple, and no
   * option the name of the account, the password or a part of the username. Where connection_security is folded it is
   * a list of strings and has no parameter of its own.
   */
  ghost predicate Distinct(p: ProtocolInfo) {
    && (forall a, b | a in Specs(p) && b in Specs(p) && a.name == b.name :: a == b)
    && (forall a, b | a in p.options && b in p.options && a.prefName == b.prefName :: a == b)
    && (forall o | o in p.options :: OwnName(o.prefName))
    && (SecurityFolded(p) ==> Lookup(p.renames, CONNECTION_SECURITY) == Some(IGNORE))
    && (SecurityFolded(p) ==>
          forall o | o in p.options && o.prefName == CONNECTION_SECURITY :: o.prefType.StringListPref?)
  }

  ghost predicate OwnName(prefName: Name) {
    prefName != ACCOUNT && prefName != PASSWORD && forall i: nat :: prefName != UserSplitName(i)
  }

  lemma AcceptedIsKnown(p: ProtocolInfo, asv: Params)
    requires Accepted(p, asv)
    ensures Known(p, asv)
  {
    forall name | name in asv
      ensures exists spec | spec in Specs(p) :: spec.name == name
    {
      var spec :| spec in Specs(p) && spec.name == name && HasType(asv[name], spec.dtype);
    }
  }

  // ----- The kinds of parameter -----

  ghost predicate IsSplitSpec(p: ProtocolInfo, spec: ParamSpec, i: nat) {
    SplitsShown(p) && 1 <= i <= |p.splits| && spec == SplitSpec(p, i)
  }

  ghost predicate IsOptionSpec(p: ProtocolInfo, spec: ParamSpec, o: AccountOption) {
    o in p.options && OptionSpec(p, o) == Some(spec)
  }

  ghost predicate AmongSplits(p: ProtocolInfo, n: nat, spec: ParamSpec) {
    exists i: nat | 1 <= i <= n :: spec == SplitSpec(p, i)
  }

  lemma AmongSplitsOneMore(p: ProtocolInfo, n: nat, spec: ParamSpec)
    ensures AmongSplits(p, n + 1, spec) <==> AmongSplits(p, n, spec) || spec == SplitSpec(p, n + 1)
  {
    if AmongSplits(p, n, spec) {
      var i: nat :| 1 <= i <= n && spec == SplitSpec(p, i);
      assert 1 <= i <= n + 1;
    }
  }

  lemma {:induction false} SplitSpecsAre(p: ProtocolInfo, n: nat, spec: ParamSpec)
    ensures spec in SplitSpecs(p, n) <==> AmongSplits(p, n, spec)
  {
    if n > 0 {
      SplitSpecsAre(p, n - 1, spec);
      AmongSplitsOneMore(p, n - 1, spec);
    }
  }

  lemma {:induction false} OptionSpecsAre(p: ProtocolInfo, options: seq<AccountOption>, spec: ParamSpec)
    ensures spec in OptionSpecs(p, options) <==> exists o | o in options :: OptionSpec(p, o) == Some(spec)
  {
    if options != [] {
      var rest, last := options[..|options| - 1], options[|options| - 1];
      assert options == rest + [last];
      OptionSpecsAre(p, rest, spec);
      assert OptionSpec(p, last) == Some(spec) ==> last in options;
    }
  }

  /** Every parameter is one of these. */
  lemma SpecsAre(p: ProtocolInfo, spec: ParamSpec)
    ensures spec in Specs(p) <==>
            || spec == ACCOUNT_SPEC
            || (exists i: nat :: IsSplitSpec(p, spec, i))
            || (!p.noPassword && spec == PASSWORD_SPEC)
            || (exists o :: IsOptionSpec(p, spec, o))
            || (SecurityFolded(p) && (spec == OldSslSpec(p) || spec == RequireEncryptionSpec(p)))
  {
    SplitSpecsAre(p, |p.splits|, spec);
    OptionSpecsAre(p, p.options, spec);
    if SplitsShown(p) && spec in SplitSpecs(p, |p.splits|) {
      var i: nat :| 1 <= i <= |p.splits| && spec == SplitSpec(p, i);
      assert IsSplitSpec(p, spec, i);
    }
    if spec in OptionSpecs(p, p.options) {
      var o :| o in p.options && OptionSpec(p, o) == Some(spec);
      assert IsOptionSpec(p, spec, o);
    }
  }

  /** The name a parameter has in libpurple tells which parameter it is. */
  lemma SetterTells(p: ProtocolInfo, spec: ParamSpec)
    requires Distinct(p) && spec in Specs(p) && spec.setter.Some?
    ensures spec.setter.value == ACCOUNT ==> spec == ACCOUNT_SPEC
    ensures spec.setter.value == PASSWORD ==> spec == PASSWORD_SPEC
    ensures forall i: nat | spec.setter.value == UserSplitName(i) :: IsSplitSpec(p, spec, i)
    ensures forall o | o in p.options && spec.setter.value == o.prefName :: IsOptionSpec(p, spec, o)
    ensures spec == ACCOUNT_SPEC || spec == PASSWORD_SPEC || (exists i: nat :: IsSplitSpec(p, spec, i)) ||
            exists o :: IsOptionSpec(p, spec, o)
  {
    SpecsAre(p, spec);
    UserSplitNameIsOwn(0);
    forall i: nat
      ensures UserSplitName(i) != ACCOUNT && UserSplitName(i) != PASSWORD
    {
      UserSplitNameIsOwn(i);
    }
    forall i: nat, j: nat | UserSplitName(i) == UserSplitName(j)
      ensures i == j
    {
      UserSplitNameInjective(i, j);
    }
  }

  lemma SettersAgree(p: ProtocolInfo, a: ParamSpec, b: ParamSpec)
    requires Distinct(p) && a in Specs(p) && b in Specs(p) && a.setter.Some? && a.setter == b.setter
    ensures a == b
  {
    SetterTells(p, a);
    SetterTells(p, b);
    if i: nat :| IsSplitSpec(p, a, i) {
      assert a.setter.value == UserSplitName(i);
    } else if o :| IsOptionSpec(p, a, o) {
      assert a.setter.value == o.prefName;
    }
  }

  lemma {:induction false} TranslatedHas(specs: seq<ParamSpec>, asv: Params, spec: ParamSpec)
    requires spec in specs && spec.setter.Some? && spec.name in asv
    requires forall b | b in specs && b.setter == spec.setter :: b == spec
    ensures spec.setter.value in Translated(specs, asv) && Translated(specs, asv)[spec.setter.value] == asv[spec.name]
  {
    var rest, last := specs[..|specs| - 1], specs[|specs| - 1];
    assert specs == rest + [last];
    if last != spec {
      TranslatedHas(rest, asv, spec);
    }
  }

  lemma {:induction false} TranslatedOnly(specs: seq<ParamSpec>, asv: Params, key: Name)
    requires key in Translated(specs, asv)
    ensures exists spec | spec in specs :: spec.setter == Some(key) && spec.name in asv
  {
    var rest, last := specs[..|specs| - 1], specs[|specs| - 1];
    assert specs == rest + [last];
    if last.setter == Some(key) && last.name in asv {
      assert last in specs;
    } else {
      TranslatedOnly(rest, asv, key);
      var spec :| spec in rest && spec.setter == Some(key) && spec.name in asv;
      assert spec in specs;
    }
  }

  /** A parameter turns up under its libpurple name just when it was given, with the value given. */
  lemma TranslatedIff(p: ProtocolInfo, asv: Params, spec: ParamSpec)
    requires Distinct(p) && spec in Specs(p) && spec.setter.Some?
    ensures var params := Translated(Specs(p), asv);
            && (spec.setter.value in params <==> spec.name in asv)
            && (spec.name in asv ==> params[spec.setter.value] == asv[spec.name])
  {
    forall b | b in Specs(p) && b.setter == spec.setter
      ensures b == spec
    {
      SettersAgree(p, b, spec);
    }
    if spec.name in asv {
      TranslatedHas(Specs(p), asv, spec);
    }
    if spec.setter.value in Translated(Specs(p), asv) {
      TranslatedOnly(Specs(p), asv, spec.setter.value);
    }
  }

  lemma AcceptedHasType(p: ProtocolInfo, asv: Params, spec: ParamSpec)
    requires Distinct(p) && Accepted(p, asv) && spec in Specs(p) && spec.name in asv
    ensures HasType(asv[spec.name], spec.dtype)
  {
    var other :| other in Specs(p) && other.name == spec.name && HasType(asv[spec.name], other.dtype);
    assert other == spec;
  }

  /** connection_security is set once, by the folding. */
  lemma SecurityHasNoSetter(p: ProtocolInfo, spec: ParamSpec)
    requires Distinct(p) && SecurityFolded(p) && spec in Specs(p)
    ensures spec.setter != Some(CONNECTION_SECURITY)
  {
    var o :| o in p.options && o.prefName == CONNECTION_SECURITY;
    assert !IsOptionSpec(p, spec, o);
    if spec.setter.Some? {
      SetterTells(p, spec);
    }
  }

  lemma PurpleIff(p: ProtocolInfo, asv: Params, spec: ParamSpec)
    requires Distinct(p) && Accepted(p, asv) && spec in Specs(p) && spec.setter.Some?
    ensures var params := PurpleParams(p, asv);
            && (spec.setter.value in params <==> spec.name in asv)
            && (spec.name in asv ==> params[spec.setter.value] == asv[spec.name] && HasType(asv[spec.name], spec.dtype))
  {
    TranslatedIff(p, asv, spec);
    if SecurityFolded(p) {
      SecurityHasNoSetter(p, spec);
    }
    if spec.name in asv {
      AcceptedHasType(p, asv, spec);
    }
  }

  // ----- The translated parameters, kind by kind -----

  lemma AccountTranslated(p: ProtocolInfo, asv: Params)
    requires Distinct(p) && Accepted(p, asv)
    ensures ACCOUNT in PurpleParams(p, asv) && PurpleParams(p, asv)[ACCOUNT] == asv[ACCOUNT] && asv[ACCOUNT].Str?
  {
    SpecsAre(p, ACCOUNT_SPEC);
    PurpleIff(p, asv, ACCOUNT_SPEC);
  }

  /** Where a key of the translated parameters comes from. */
  lemma PurpleOnly(p: ProtocolInfo, asv: Params, key: Name)
    requires Distinct(p) && Accepted(p, asv) && key in PurpleParams(p, asv)
    ensures (SecurityFolded(p) && key == CONNECTION_SECURITY) ||
            exists spec | spec in Specs(p) :: spec.setter == Some(key) && spec.name in asv
  {
    if !(SecurityFolded(p) && key == CONNECTION_SECURITY) {
      TranslatedOnly(Specs(p), asv, key);
    }
  }

  lemma PasswordTranslated(p: ProtocolInfo, asv: Params)
    requires Distinct(p) && Accepted(p, asv)
    ensures PASSWORD in PurpleParams(p, asv) <==> !p.noPassword && PASSWORD in asv
    ensures !p.noPassword && PASSWORD in asv ==> PurpleParams(p, asv)[PASSWORD] == asv[PASSWORD] && asv[PASSWORD].Str?
  {
    SpecsAre(p, PASSWORD_SPEC);
    if !p.noPassword {
      PurpleIff(p, asv, PASSWORD_SPEC);
    } else if PASSWORD in PurpleParams(p, asv) {
      PasswordHasSpec(p, asv);
    }
  }

  /** No parameter of another kind has the name of the password. */
  lemma PasswordHasSpec(p: ProtocolInfo, asv: Params)
    requires Distinct(p) && Accepted(p, asv) && PASSWORD in PurpleParams(p, asv)
    ensures PASSWORD_SPEC in Specs(p)
  {
    SecurityNameIsOwn(p);
    PurpleOnly(p, asv, PASSWORD);
    var spec :| spec in Specs(p) && spec.setter == Some(PASSWORD) && spec.name in asv;
    SetterTells(p, spec);
  }

  lemma SecurityNameIsOwn(p: ProtocolInfo)
    requires Distinct(p)
    ensures SecurityFolded(p) ==> OwnName(CONNECTION_SECURITY)
  {
    if SecurityFolded(p) {
      var o :| o in p.options && o.prefName == CONNECTION_SECURITY;
      assert OwnName(o.prefName);
    }
  }

  lemma SplitTranslated(p: ProtocolInfo, asv: Params, i: nat)
    requires Distinct(p) && Accepted(p, asv) && 1 <= i <= |p.splits|
    ensures UserSplitName(i) in PurpleParams(p, asv) <==> SplitsShown(p) && SplitSpec(p, i).name in asv
    ensures UserSplitName(i) in PurpleParams(p, asv) ==>
              PurpleParams(p, asv)[UserSplitName(i)] == asv[SplitSpec(p, i).name] && asv[SplitSpec(p, i).name].Str?
  {
    if SplitsShown(p) {
      assert IsSplitSpec(p, SplitSpec(p, i), i);
      SpecsAre(p, SplitSpec(p, i));
      PurpleIff(p, asv, SplitSpec(p, i));
    } else if UserSplitName(i) in PurpleParams(p, asv) {
      SplitsAreShown(p, asv, i);
    }
  }

  lemma SplitsAreShown(p: ProtocolInfo, asv: Params, i: nat)
    requires Distinct(p) && Accepted(p, asv) && UserSplitName(i) in PurpleParams(p, asv)
    ensures SplitsShown(p)
  {
    SecurityNameIsOwn(p);
    PurpleOnly(p, asv, UserSplitName(i));
    var spec :| spec in Specs(p) && spec.setter == Some(UserSplitName(i)) && spec.name in asv;
    SetterTells(p, spec);
    assert IsSplitSpec(p, spec, i);
  }

  ghost predicate IsSecurity(p: ProtocolInfo, o: AccountOption) {
    SecurityFolded(p) && o.prefName == CONNECTION_SECURITY
  }

  /** An option that is set: through its own parameter, or as connection_security. */
  ghost predicate IsGiven(p: ProtocolInfo, asv: Params, o: AccountOption) {
    IsSecurity(p, o) || (OptionSpec(p, o).Some? && OptionSpec(p, o).value.name in asv)
  }

  ghost function GivenValue(p: ProtocolInfo, asv: Params, o: AccountOption): Value
    requires IsGiven(p, asv, o)
  {
    if IsSecurity(p, o) then Security(asv) else asv[OptionSpec(p, o).value.name]
  }

  lemma OptionTranslated(p: ProtocolInfo, asv: Params, o: AccountOption)
    requires Distinct(p) && Accepted(p, asv) && o in p.options
    ensures o.prefName in PurpleParams(p, asv) <==> IsGiven(p, asv, o)
    ensures IsGiven(p, asv, o) ==>
              && PurpleParams(p, asv)[o.prefName] == GivenValue(p, asv, o)
              && OptionValue(o.prefType, GivenValue(p, asv, o)) == Some(GivenValue(p, asv, o))
  {
    if IsSecurity(p, o) {
      SecurityTranslated(p, asv, o);
    } else if OptionSpec(p, o).Some? {
      OwnOptionTranslated(p, asv, o);
    } else if o.prefName in PurpleParams(p, asv) {
      OptionHasSpec(p, asv, o);
    }
  }

  lemma SecurityTranslated(p: ProtocolInfo, asv: Params, o: AccountOption)
    requires Distinct(p) && o in p.options && IsSecurity(p, o)
    ensures o.prefName in PurpleParams(p, asv) && PurpleParams(p, asv)[o.prefName] == Security(asv)
    ensures OptionValue(o.prefType, Security(asv)) == Some(Security(asv))
  {
    assert o.prefType.StringListPref?;
  }

  lemma OwnOptionTranslated(p: ProtocolInfo, asv: Params, o: AccountOption)
    requires Distinct(p) && Accepted(p, asv) && o in p.options && OptionSpec(p, o).Some?
    ensures var name := OptionSpec(p, o).value.name;
            && (o.prefName in PurpleParams(p, asv) <==> name in asv)
            && (name in asv ==> PurpleParams(p, asv)[o.prefName] == asv[name]
                                && OptionValue(o.prefType, asv[name]) == Some(asv[name]))
  {
    var spec := OptionSpec(p, o).value;
    assert IsOptionSpec(p, spec, o);
    SpecsAre(p, spec);
    PurpleIff(p, asv, spec);
    if spec.name in asv {
      TypedOptionValue(o.prefType, spec.name, asv[spec.name]);
    }
  }

  /** A value of an option's type is what the account gets. */
  lemma TypedOptionValue(prefType: PrefType, name: Name, v: Value)
    requires OptionType(prefType, name).Some? && HasType(v, OptionType(prefType, name).value)
    ensures OptionValue(prefType, v) == Some(v)
  {
  }

  lemma OptionHasSpec(p: ProtocolInfo, asv: Params, o: AccountOption)
    requires Distinct(p) && Accepted(p, asv) && o in p.options && !IsSecurity(p, o)
    requires o.prefName in PurpleParams(p, asv)
    ensures OptionSpec(p, o).Some?
  {
    PurpleOnly(p, asv, o.prefName);
    var spec :| spec in Specs(p) && spec.setter == Some(o.prefName) && spec.name in asv;
    SetterTells(p, spec);
    assert IsOptionSpec(p, spec, o);
  }

  ghost function OptionNames(options: seq<AccountOption>): set<Name> {
    set o | o in options :: o.prefName
  }

  lemma SetterIsNamed(p: ProtocolInfo, spec: ParamSpec)
    requires Distinct(p) && spec in Specs(p) && spec.setter.Some?
    ensures var key := spec.setter.value;
            key == ACCOUNT || key == PASSWORD || key in SplitNames(|p.splits|) || key in OptionNames(p.options)
  {
    SpecsAre(p, spec);
    SplitNamesAre(|p.splits|, spec.setter.value);
    if o :| IsOptionSpec(p, spec, o) {
      assert o.prefName == spec.setter.value;
    }
  }

  lemma SecurityIsOption(p: ProtocolInfo)
    requires SecurityFolded(p)
    ensures CONNECTION_SECURITY in OptionNames(p.options)
  {
    var o :| o in p.options && o.prefName == CONNECTION_SECURITY;
  }

  lemma KeyTranslated(p: ProtocolInfo, asv: Params, key: Name)
    requires Distinct(p) && Accepted(p, asv) && key in PurpleParams(p, asv)
    ensures key == ACCOUNT || key == PASSWORD || key in SplitNames(|p.splits|) || key in OptionNames(p.options)
  {
    PurpleOnly(p, asv, key);
    if spec :| spec in Specs(p) && spec.setter == Some(key) {
      SetterIsNamed(p, spec);
    } else {
      SecurityIsOption(p);
    }
  }

  // ----- Using the parameters up -----

  ghost predicate OneByName(options: seq<AccountOption>) {
    forall a, b | a in options && b in options && a.prefName == b.prefName :: a == b
  }

  /** The option is set if it is given and of a type that haze handles, to the value read, and not otherwise. */
  ghost predicate IsSet(given: Params, params: Params, o: AccountOption) {
    if o.prefName in params && OptionValue(o.prefType, params[o.prefName]).Some? then
      o.prefName in given && Some(given[o.prefName]) == OptionValue(o.prefType, params[o.prefName])
    else o.prefName !in given
  }

  lemma SetOneMore(rest: seq<AccountOption>, last: AccountOption, params: Params)
    ensures var before, after := SetOptions(rest, params), SetOptions(rest + [last], params);
            if last.prefName !in before.1 then after == before
            else
              var value := OptionValue(last.prefType, before.1[last.prefName]);
              && after.1 == before.1 - {last.prefName}
              && after.0 == if value.Some? then before.0[last.prefName := value.value] else before.0
  {
    assert (rest + [last])[..|rest|] == rest;
  }

  lemma OptionNamesOneMore(rest: seq<AccountOption>, last: AccountOption)
    ensures OptionNames(rest + [last]) == OptionNames(rest) + {last.prefName}
  {
    assert last in rest + [last];
    assert forall o | o in rest :: o in rest + [last];
  }

  lemma {:induction false} SetOptionsLeaves(options: seq<AccountOption>, params: Params)
    ensures SetOptions(options, params).1 == params - OptionNames(options)
    ensures SetOptions(options, params).0.Keys <= OptionNames(options)
  {
    if options != [] {
      var rest, last := options[..|options| - 1], options[|options| - 1];
      assert options == rest + [last];
      SetOptionsLeaves(rest, params);
      SetOneMore(rest, last, params);
      OptionNamesOneMore(rest, last);
    }
  }

  lemma {:induction false} SetOptionsAre(options: seq<AccountOption>, params: Params)
    requires OneByName(options)
    ensures SetOptions(options, params).1 == params - OptionNames(options)
    ensures SetOptions(options, params).0.Keys <= OptionNames(options)
    ensures forall o | o in options :: IsSet(SetOptions(options, params).0, params, o)
  {
    SetOptionsLeaves(options, params);
    if options != [] {
      var rest, last := options[..|options| - 1], options[|options| - 1];
      assert options == rest + [last];
      SetOptionsAre(rest, params);
      SetOneMore(rest, last, params);
      forall o | o in options
        ensures IsSet(SetOptions(options, params).0, params, o)
      {
        assert last in options && (o.prefName == last.prefName ==> o == last);
      }
    }
  }

  // ----- No parameter is lost -----

  /** The parts of the username, as given under the names that Telepathy has for them. */
  ghost function GivenText(p: ProtocolInfo, asv: Params, n: nat): string
    requires n <= |p.splits|
  {
    if n == 0 then ""
    else
      var name := SplitSpec(p, n).name;
      GivenText(p, asv, n - 1) + [p.splits[n - 1].separator]
      + if name in asv && asv[name].Str? then asv[name].s else p.splits[n - 1].default
  }

  /** A part of the username turns up under its libpurple name just when it was given, as it was given. */
  ghost predicate SplitMatches(p: ProtocolInfo, params: Params, asv: Params, i: nat) {
    var key, name := UserSplitName(i), SplitSpec(p, i).name;
    if name in asv then key in params && params[key] == asv[name] else key !in params
  }

  lemma {:induction false} SplitTextIsGiven(p: ProtocolInfo, params: Params, asv: Params, n: nat)
    requires n <= |p.splits| && forall i: nat | 1 <= i <= n :: SplitMatches(p, params, asv, i)
    ensures SplitText(p.splits, params, n) == GivenText(p, asv, n)
  {
    if n > 0 {
      SplitTextIsGiven(p, params, asv, n - 1);
      assert SplitMatches(p, params, asv, n);
    }
  }

  ghost predicate FirstSplitGiven(p: ProtocolInfo, asv: Params) {
    SplitsShown(p) && SplitSpec(p, 1).name in asv
  }

  lemma UsesSplitsIff(p: ProtocolInfo, asv: Params)
    requires Distinct(p) && Accepted(p, asv)
    ensures UsesSplits(p.splits, PurpleParams(p, asv)) <==> FirstSplitGiven(p, asv)
  {
    if p.splits != [] {
      SplitTranslated(p, asv, 1);
    }
  }

  lemma UsernameIsGiven(p: ProtocolInfo, asv: Params)
    requires Distinct(p) && Accepted(p, asv)
    ensures ACCOUNT in PurpleParams(p, asv) && PurpleParams(p, asv)[ACCOUNT].Str? && asv[ACCOUNT].Str?
    ensures Username(p.splits, PurpleParams(p, asv)) ==
            asv[ACCOUNT].s + if FirstSplitGiven(p, asv) then GivenText(p, asv, |p.splits|) else ""
  {
    AccountTranslated(p, asv);
    UsesSplitsIff(p, asv);
    if FirstSplitGiven(p, asv) {
      forall i: nat | 1 <= i <= |p.splits|
        ensures SplitMatches(p, PurpleParams(p, asv), asv, i)
      {
        SplitTranslated(p, asv, i);
      }
      SplitTextIsGiven(p, PurpleParams(p, asv), asv, |p.splits|);
    }
  }

  /** The names used up on the way to the username are nobody else's. */
  lemma UsernameNamesAreOwn(p: ProtocolInfo, name: Name)
    requires Distinct(p) && (name == ACCOUNT || name in SplitNames(|p.splits|))
    ensures name != PASSWORD && name !in OptionNames(p.options)
    ensures PASSWORD !in OptionNames(p.options)
  {
    SplitNamesAre(|p.splits|, name);
    UserSplitNameIsOwn(0);
    forall i: nat
      ensures UserSplitName(i) != PASSWORD
    {
      UserSplitNameIsOwn(i);
    }
  }

  lemma PasswordIsKept(p: ProtocolInfo, asv: Params)
    requires Distinct(p) && Accepted(p, asv)
    ensures var rest := WithoutUsername(p.splits, PurpleParams(p, asv));
            && (PASSWORD in rest <==> !p.noPassword && PASSWORD in asv)
            && (PASSWORD in rest ==> rest[PASSWORD] == asv[PASSWORD] && asv[PASSWORD].Str?)
  {
    PasswordTranslated(p, asv);
    UsernameNamesAreOwn(p, ACCOUNT);
    if PASSWORD in SplitNames(|p.splits|) {
      UsernameNamesAreOwn(p, PASSWORD);
    }
  }

  /** Options are untouched by what is used up before them. */
  lemma OptionsAreKept(p: ProtocolInfo, asv: Params, o: AccountOption)
    requires Distinct(p) && Accepted(p, asv) && o in p.options
    ensures var rest := WithoutUsername(p.splits, PurpleParams(p, asv)) - {PASSWORD};
            && (o.prefName in rest <==> IsGiven(p, asv, o))
            && (IsGiven(p, asv, o) ==> rest[o.prefName] == GivenValue(p, asv, o))
  {
    OptionTranslated(p, asv, o);
    OptionNameIsOwn(p, o);
    Untouched(p.splits, PurpleParams(p, asv), o.prefName);
  }

  lemma OptionNameIsOwn(p: ProtocolInfo, o: AccountOption)
    requires Distinct(p) && o in p.options
    ensures o.prefName != ACCOUNT && o.prefName != PASSWORD && o.prefName !in SplitNames(|p.splits|)
  {
    assert OwnName(o.prefName);
    SplitNamesAre(|p.splits|, o.prefName);
  }

  lemma Untouched(splits: seq<UserSplit>, params: Params, key: Name)
    requires key != ACCOUNT && key != PASSWORD && key !in SplitNames(|splits|)
    ensures var rest := WithoutUsername(splits, params) - {PASSWORD};
            (key in rest <==> key in params) && (key in rest ==> rest[key] == params[key])
  {
  }

  /** Every parameter is used in the translation, so that none of those accepted is left among the unused. */
  lemma NothingUnused(p: ProtocolInfo, spec: ParamSpec)
    requires spec in Specs(p)
    ensures spec.setter.Some? || (SecurityFolded(p) && (spec.name == OLD_SSL || spec.name == REQUIRE_ENCRYPTION))
  {
    SpecsAre(p, spec);
  }

  /**
   * What comes of the parameters of a connection: each turns up, with the value given, as the part of the account it
   * stands for, and the account has nothing else.
   */
  lemma EveryParameterIsKept(p: ProtocolInfo, asv: Params)
    requires Distinct(p) && Accepted(p, asv)
    ensures ACCOUNT in PurpleParams(p, asv) && PurpleParams(p, asv)[ACCOUNT].Str? && asv[ACCOUNT].Str?
    ensures var account := Connected(p, asv).0;
            && account.username ==
               asv[ACCOUNT].s + (if FirstSplitGiven(p, asv) then GivenText(p, asv, |p.splits|) else "")
            && (account.password.Some? <==> !p.noPassword && PASSWORD in asv)
            && (account.password.Some? ==> Str(account.password.value) == asv[PASSWORD])
            && (forall o | o in p.options ::
                  (o.prefName in account.options <==> IsGiven(p, asv, o)) &&
                  (IsGiven(p, asv, o) ==> account.options[o.prefName] == GivenValue(p, asv, o)))
            && account.options.Keys <= OptionNames(p.options)
  {
    UsernameIsGiven(p, asv);
    PasswordIsKept(p, asv);
    var rest := WithoutUsername(p.splits, PurpleParams(p, asv));
    if PASSWORD !in rest {
      assert rest - {PASSWORD} == rest;
    }
    SetOptionsAre(p.options, rest - {PASSWORD});
    forall o | o in p.options
      ensures (o.prefName in Connected(p, asv).0.options <==> IsGiven(p, asv, o)) &&
              (IsGiven(p, asv, o) ==> Connected(p, asv).0.options[o.prefName] == GivenValue(p, asv, o))
    {
      OptionsAreKept(p, asv, o);
      OptionTranslated(p, asv, o);
    }
  }

  /** The names left of those used up in turn: parts of the username, the account, the password, options. */
  lemma WhatRemains(params: Params, splitNames: set<Name>, optionNames: set<Name>, used: bool)
    requires params.Keys <= {ACCOUNT} + {PASSWORD} + splitNames + optionNames
    requires ACCOUNT !in splitNames && PASSWORD !in splitNames && splitNames !! optionNames
    ensures (params - (if used then splitNames else {}) - {ACCOUNT} - {PASSWORD} - optionNames).Keys ==
            if used then {} else params.Keys * splitNames
  {
  }

  lemma LeftoverIs(p: ProtocolInfo, asv: Params)
    requires Distinct(p) && Accepted(p, asv)
    ensures ACCOUNT in PurpleParams(p, asv) && PurpleParams(p, asv)[ACCOUNT].Str?
    ensures Connected(p, asv).1.Keys ==
            if FirstSplitGiven(p, asv) then {} else PurpleParams(p, asv).Keys * SplitNames(|p.splits|)
  {
    UsernameIsGiven(p, asv);
    UsesSplitsIff(p, asv);
    KeysTranslated(p, asv);
    WhatRemains(PurpleParams(p, asv), SplitNames(|p.splits|), OptionNames(p.options), FirstSplitGiven(p, asv));
    LeftIsRest(p, asv);
  }

  lemma LeftIsRest(p: ProtocolInfo, asv: Params)
    requires Distinct(p) && Accepted(p, asv)
    requires ACCOUNT in PurpleParams(p, asv) && PurpleParams(p, asv)[ACCOUNT].Str?
    ensures Connected(p, asv).1 ==
            WithoutUsername(p.splits, PurpleParams(p, asv)) - {PASSWORD} - OptionNames(p.options)
  {
    PasswordIsKept(p, asv);
    var rest := WithoutUsername(p.splits, PurpleParams(p, asv));
    if PASSWORD !in rest {
      assert rest - {PASSWORD} == rest;
    }
    SetOptionsAre(p.options, rest - {PASSWORD});
  }

  lemma KeysTranslated(p: ProtocolInfo, asv: Params)
    requires Distinct(p) && Accepted(p, asv)
    ensures PurpleParams(p, asv).Keys <= {ACCOUNT} + {PASSWORD} + SplitNames(|p.splits|) + OptionNames(p.options)
    ensures ACCOUNT !in SplitNames(|p.splits|) && PASSWORD !in SplitNames(|p.splits|)
    ensures SplitNames(|p.splits|) !! OptionNames(p.options)
  {
    forall key | key in PurpleParams(p, asv).Keys
      ensures key in {ACCOUNT} + {PASSWORD} + SplitNames(|p.splits|) + OptionNames(p.options)
    {
      KeyTranslated(p, asv, key);
    }
    forall key | key in SplitNames(|p.splits|)
      ensures key != PASSWORD && key !in OptionNames(p.options)
    {
      UsernameNamesAreOwn(p, key);
    }
    AccountIsNoSplit(|p.splits|);
  }

  lemma AccountIsNoSplit(n: nat)
    ensures ACCOUNT !in SplitNames(n)
  {
    SplitNamesAre(n, ACCOUNT);
    forall i: nat
      ensures UserSplitName(i) != ACCOUNT
    {
      UserSplitNameIsOwn(i);
    }
  }

  ghost predicate SomeSplitGiven(p: ProtocolInfo, asv: Params) {
    SplitsShown(p) && exists i: nat | 1 <= i <= |p.splits| :: SplitSpec(p, i).name in asv
  }

  lemma SplitNamesTranslated(p: ProtocolInfo, asv: Params)
    requires Distinct(p) && Accepted(p, asv)
    ensures PurpleParams(p, asv).Keys * SplitNames(|p.splits|) == {} <==> !SomeSplitGiven(p, asv)
  {
    if i: nat :| SplitsShown(p) && 1 <= i <= |p.splits| && SplitSpec(p, i).name in asv {
      SplitTranslated(p, asv, i);
      SplitNamesAre(|p.splits|, UserSplitName(i));
      assert UserSplitName(i) in PurpleParams(p, asv).Keys * SplitNames(|p.splits|);
    } else {
      NoSplitTranslated(p, asv);
    }
  }

  /**
   * Nothing is left over unless a later part of the username is given without the first.
   */
  lemma NothingLeftIff(p: ProtocolInfo, asv: Params)
    requires Distinct(p) && Accepted(p, asv)
    ensures ACCOUNT in PurpleParams(p, asv) && PurpleParams(p, asv)[ACCOUNT].Str?
    ensures Connected(p, asv).1 == map[] <==> (SomeSplitGiven(p, asv) ==> FirstSplitGiven(p, asv))
  {
    LeftoverIs(p, asv);
    SplitNamesTranslated(p, asv);
    assert Connected(p, asv).1 == map[] <==> Connected(p, asv).1.Keys == {};
  }

  /** A protocol whose usernames have three parts, the second called "server". */
  ghost function ThreePartNames(): ProtocolInfo {
    ProtocolInfo("", [], [UserSplit('@', ""), UserSplit('/', "")], true, [Rename(UserSplitName(1), "server")], false)
  }

  lemma ThreePartSpecs(spec: ParamSpec)
    ensures var p := ThreePartNames();
            && SplitsShown(p) && SplitSpec(p, 1).name == "server" && SplitSpec(p, 2).name == UserSplitName(2)
            && (spec in Specs(p) <==> spec == ACCOUNT_SPEC || spec == SplitSpec(p, 1) || spec == SplitSpec(p, 2))
  {
    var p := ThreePartNames();
    SpecsAre(p, spec);
    if UserSplitName(1) == UserSplitName(2) {
      UserSplitNameInjective(1, 2);
    }
    assert p.renames[1..] == [];
    if spec == SplitSpec(p, 1) {
      assert IsSplitSpec(p, spec, 1);
    } else if spec == SplitSpec(p, 2) {
      assert IsSplitSpec(p, spec, 2);
    }
  }

  lemma ThreePartNamesDiffer()
    ensures "server" != ACCOUNT && "server" != UserSplitName(2) && ACCOUNT != UserSplitName(2)
  {
    assert ACCOUNT[0] == 'a' && "server"[0] == 's' && UserSplitName(2)[0] == 'u';
  }

  lemma ThreePartNamesAreDistinct()
    ensures Distinct(ThreePartNames())
  {
    var p := ThreePartNames();
    ThreePartNamesDiffer();
    forall spec
      ensures spec in Specs(p) <==> spec == ACCOUNT_SPEC || spec == SplitSpec(p, 1) || spec == SplitSpec(p, 2)
    {
      ThreePartSpecs(spec);
    }
    ThreePartSpecs(ACCOUNT_SPEC);
  }

  lemma AccountAndOneAccepted(p: ProtocolInfo, asv: Params, spec: ParamSpec)
    requires ACCOUNT_SPEC in Specs(p) && spec in Specs(p) && spec.dtype == DString
    requires asv.Keys == {ACCOUNT, spec.name} && forall name | name in asv :: asv[name].Str?
    ensures Accepted(p, asv)
  {
    forall name | name in asv
      ensures exists given | given in Specs(p) :: given.name == name && HasType(asv[name], given.dtype)
    {
      var given := if name == ACCOUNT then ACCOUNT_SPEC else spec;
      assert given in Specs(p) && given.name == name && given.dtype == DString;
    }
  }

  lemma ThreePartProtocol() returns (p: ProtocolInfo)
    ensures Distinct(p) && SplitsShown(p) && |p.splits| == 2
    ensures ACCOUNT_SPEC in Specs(p) && SplitSpec(p, 1) in Specs(p) && SplitSpec(p, 2) in Specs(p)
    ensures SplitSpec(p, 2).dtype == DString
    ensures SplitSpec(p, 1).name != ACCOUNT && SplitSpec(p, 1).name != SplitSpec(p, 2).name
    ensures SplitSpec(p, 2).name != ACCOUNT
  {
    p := ThreePartNames();
    ThreePartNamesAreDistinct();
    ThreePartSpecs(ACCOUNT_SPEC);
    ThreePartSpecs(SplitSpec(p, 1));
    ThreePartSpecs(SplitSpec(p, 2));
    ThreePartNamesDiffer();
  }

  /** The third part is left over when it is given without the second. */
  lemma LaterPartAlone() returns (p: ProtocolInfo, asv: Params)
    ensures Distinct(p) && Accepted(p, asv) && !DefaultsApplied(p, asv)
    ensures ACCOUNT in PurpleParams(p, asv) && PurpleParams(p, asv)[ACCOUNT].Str?
    ensures Connected(p, asv).1 != map[]
  {
    p := ThreePartProtocol();
    var third := SplitSpec(p, 2);
    asv := map[ACCOUNT := Str(""), third.name := Str("")];
    AccountAndOneAccepted(p, asv, third);
    NothingLeftIff(p, asv);
    assert SomeSplitGiven(p, asv) && !FirstSplitGiven(p, asv);
    assert SplitSpec(p, 1).traits.default.Some?;
  }

  /** Every parameter that has a default is given, as telepathy-glib sees to. */
  ghost predicate DefaultsApplied(p: ProtocolInfo, asv: Params) {
    forall spec | spec in Specs(p) && spec.traits.default.Some? :: spec.name in asv
  }

  /** Once the defaults have been applied nothing is left over. */
  lemma NothingLeftWithDefaults(p: ProtocolInfo, asv: Params)
    requires Distinct(p) && Accepted(p, asv) && DefaultsApplied(p, asv)
    ensures ACCOUNT in PurpleParams(p, asv) && PurpleParams(p, asv)[ACCOUNT].Str?
    ensures Connected(p, asv).1 == map[]
  {
    NothingLeftIff(p, asv);
    if SplitsShown(p) {
      assert IsSplitSpec(p, SplitSpec(p, 1), 1);
      SpecsAre(p, SplitSpec(p, 1));
    }
  }

  /** What a connection is given before the defaults are applied, and after. */
  ghost predicate WithDefaults(p: ProtocolInfo, given: Params, asv: Params) {
    && (forall name | name in given :: name in asv && asv[name] == given[name])
    && (forall spec | spec in Specs(p) && spec.traits.default.Some? && spec.name !in given ::
          spec.name in asv && (!spec.traits.default.value.NullString? ==> asv[spec.name] == spec.traits.default.value))
    && (forall name | name in asv && name !in given :: exists spec | spec in Specs(p) ::
          spec.name == name && spec.traits.default.Some?)
  }

  lemma OptionIsKept(p: ProtocolInfo, asv: Params, o: AccountOption)
    requires Distinct(p) && Accepted(p, asv) && o in p.options
    ensures ACCOUNT in PurpleParams(p, asv) && PurpleParams(p, asv)[ACCOUNT].Str?
    ensures var options := Connected(p, asv).0.options;
            && (o.prefName in options <==> IsGiven(p, asv, o))
            && (IsGiven(p, asv, o) ==> options[o.prefName] == GivenValue(p, asv, o))
  {
    EveryParameterIsKept(p, asv);
  }

  /** An option with a default that is not given. */
  ghost predicate TakesDefault(p: ProtocolInfo, given: Params, o: AccountOption) {
    && o in p.options && OptionSpec(p, o).Some?
    && OptionSpec(p, o).value.traits.default.Some? && OptionSpec(p, o).value.name !in given
  }

  /** The option that old-ssl and require-encryption stand for, when neither is given and its default is one known. */
  ghost predicate TakesSecurityDefault(p: ProtocolInfo, given: Params, o: AccountOption) {
    && o in p.options && IsSecurity(p, o) && SecurityDefaults(o.default).Some?
    && OLD_SSL !in given && REQUIRE_ENCRYPTION !in given
  }

  lemma DefaultIsGiven(p: ProtocolInfo, given: Params, asv: Params, o: AccountOption)
    requires Distinct(p) && WithDefaults(p, given, asv)
    ensures TakesDefault(p, given, o) ==>
              IsGiven(p, asv, o) && (o.default != NullString ==> GivenValue(p, asv, o) == o.default)
  {
    if TakesDefault(p, given, o) {
      var spec := OptionSpec(p, o).value;
      assert IsOptionSpec(p, spec, o);
      SpecsAre(p, spec);
      assert spec.traits.default == Some(o.default);
    }
  }

  /** An option with a default that is not given is set to just that default. */
  lemma DefaultsComeBack(p: ProtocolInfo, given: Params, asv: Params, o: AccountOption)
    requires Distinct(p) && Accepted(p, asv)
    ensures ACCOUNT in PurpleParams(p, asv) && PurpleParams(p, asv)[ACCOUNT].Str?
    ensures WithDefaults(p, given, asv) && TakesDefault(p, given, o) ==>
              var options := Connected(p, asv).0.options;
              o.prefName in options && (o.default != NullString ==> options[o.prefName] == o.default)
  {
    AccountTranslated(p, asv);
    if WithDefaults(p, given, asv) && TakesDefault(p, given, o) {
      DefaultIsGiven(p, given, asv, o);
      OptionIsKept(p, asv, o);
    }
  }

  lemma DefaultSecurityIsGiven(p: ProtocolInfo, given: Params, asv: Params, o: AccountOption)
    requires OneByName(p.options) && WithDefaults(p, given, asv)
    ensures TakesSecurityDefault(p, given, o) ==> Security(asv) == o.default
  {
    if TakesSecurityDefault(p, given, o) {
      SpecsAre(p, OldSslSpec(p));
      SpecsAre(p, RequireEncryptionSpec(p));
      SecurityDefaultIsOwn(p.options, o);
      var (oldSsl, requireEncryption) := SecurityDefaults(o.default).value;
      assert OldSslSpec(p).traits.default == Some(Bool(oldSsl)) && OldSslSpec(p).name == OLD_SSL;
      assert RequireEncryptionSpec(p).traits.default == Some(Bool(requireEncryption));
      FoldedDefaultIsDefault(asv, o.default);
    }
  }

  /** So is connection_security, through the two parameters that stand for it: what is made of its default makes it
      again. */
  lemma DefaultSecurityComesBack(p: ProtocolInfo, given: Params, asv: Params, o: AccountOption)
    requires Distinct(p) && Accepted(p, asv)
    ensures ACCOUNT in PurpleParams(p, asv) && PurpleParams(p, asv)[ACCOUNT].Str?
    ensures WithDefaults(p, given, asv) && TakesSecurityDefault(p, given, o) ==>
              var options := Connected(p, asv).0.options;
              o.prefName in options && options[o.prefName] == o.default
  {
    AccountTranslated(p, asv);
    if WithDefaults(p, given, asv) && TakesSecurityDefault(p, given, o) {
      DefaultSecurityIsGiven(p, given, asv, o);
      OptionIsKept(p, asv, o);
    }
  }

  lemma {:induction false} SecurityDefaultIsOwn(options: seq<AccountOption>, o: AccountOption)
    requires OneByName(options) && o in options && o.prefName == CONNECTION_SECURITY
    ensures SecurityDefault(options) == o.default
  {
    if options[0].prefName != CONNECTION_SECURITY {
      SecurityDefaultIsOwn(options[1..], o);
    }
  }

  lemma FoldedDefaultIsDefault(asv: Params, default: Value)
    requires SecurityDefaults(default).Some?
    requires GetBoolean(asv, OLD_SSL) == SecurityDefaults(default).value.0
    requires GetBoolean(asv, REQUIRE_ENCRYPTION) == SecurityDefaults(default).value.1
    ensures Security(asv) == default
  {
  }

  lemma NoSplitTranslated(p: ProtocolInfo, asv: Params)
    requires Distinct(p) && Accepted(p, asv)
    requires forall i: nat | SplitsShown(p) && 1 <= i <= |p.splits| :: SplitSpec(p, i).name !in asv
    ensures PurpleParams(p, asv).Keys * SplitNames(|p.splits|) == {}
  {
    forall key | key in SplitNames(|p.splits|)
      ensures key !in PurpleParams(p, asv)
    {
      SplitNamesAre(|p.splits|, key);
      var i: nat :| 1 <= i <= |p.splits| && key == UserSplitName(i);
      SplitTranslated(p, asv, i);
    }
  }

  /** The part of the account that a parameter stands for. */
  datatype Destination = ToAccount | ToSplit(i: nat) | ToPassword | ToOption(o: AccountOption) | ToSecurity

  ghost predicate GoesTo(p: ProtocolInfo, spec: ParamSpec, d: Destination) {
    match d
    case ToAccount => spec == ACCOUNT_SPEC
    case ToSplit(i) => IsSplitSpec(p, spec, i)
    case ToPassword => !p.noPassword && spec == PASSWORD_SPEC
    case ToOption(o) => IsOptionSpec(p, spec, o)
    case ToSecurity => SecurityFolded(p) && (spec == OldSslSpec(p) || spec == RequireEncryptionSpec(p))
  }

  lemma SomeDestination(p: ProtocolInfo, spec: ParamSpec) returns (d: Destination)
    requires spec in Specs(p)
    ensures GoesTo(p, spec, d)
  {
    SpecsAre(p, spec);
    if i: nat :| IsSplitSpec(p, spec, i) {
      d := ToSplit(i);
    } else if o :| IsOptionSpec(p, spec, o) {
      d := ToOption(o);
    } else {
      d := if spec == ACCOUNT_SPEC then ToAccount else if spec == PASSWORD_SPEC then ToPassword else ToSecurity;
    }
  }

  /** Every parameter of a protocol stands for exactly one part of the account. */
  lemma OneDestination(p: ProtocolInfo, spec: ParamSpec) returns (d: Destination)
    requires Distinct(p) && spec in Specs(p)
    ensures forall e :: GoesTo(p, spec, e) <==> e == d
  {
    d := SomeDestination(p, spec);
    forall e | GoesTo(p, spec, e)
      ensures d == e
    {
      DestinationsAgree(p, spec, d, e);
    }
  }

  lemma DestinationsAgree(p: ProtocolInfo, spec: ParamSpec, d: Destination, e: Destination)
    requires Distinct(p) && GoesTo(p, spec, d) && GoesTo(p, spec, e)
    ensures d == e
  {
    SetterOf(p, spec, d);
    SetterOf(p, spec, e);
    UserSplitNameIsOwn(0);
    if d.ToSplit? && e.ToSplit? {
      UserSplitNameInjective(d.i, e.i);
    }
  }

  /** What the name of a parameter in libpurple is, by its destination. */
  lemma SetterOf(p: ProtocolInfo, spec: ParamSpec, d: Destination)
    requires Distinct(p) && GoesTo(p, spec, d)
    ensures match d
            case ToAccount => spec.setter == Some(ACCOUNT)
            case ToSplit(i) =>
              spec.setter == Some(UserSplitName(i)) && UserSplitName(i) != ACCOUNT && UserSplitName(i) != PASSWORD
            case ToPassword => spec.setter == Some(PASSWORD)
            case ToOption(o) => o in p.options && spec.setter == Some(o.prefName) && OwnName(o.prefName)
            case ToSecurity => spec.setter == None
  {
    if d.ToSplit? {
      UserSplitNameIsOwn(d.i);
    }
  }

  /** What comes after the account in a username of three parts: each part, or else its default, after its separator. */
  lemma ThreePartText(p: ProtocolInfo, asv: Params, first: string, second: string)
    requires |p.splits| == 2
    requires var name := SplitSpec(p, 1).name;
             if name in asv && asv[name].Str? then asv[name].s == first else first == p.splits[0].default
    requires var name := SplitSpec(p, 2).name;
             if name in asv && asv[name].Str? then asv[name].s == second else second == p.splits[1].default
    ensures GivenText(p, asv, 2) == [p.splits[0].separator] + first + [p.splits[1].separator] + second
  {
    assert GivenText(p, asv, 0) == "";
    var text := GivenText(p, asv, 1);
    assert text == "" + [p.splits[0].separator] + first;
    assert "" + [p.splits[0].separator] == [p.splits[0].separator];
  }

  // ----- The flags, types and filters of parameters -----

  /** The first renaming of a name is the one that counts. */
  lemma {:induction false} LookupFindsFirst(renames: seq<Rename>, name: Name)
    ensures match Lookup(renames, name)
            case None => forall r | r in renames :: r.purpleName != name
            case Some(other) => exists i :: 0 <= i < |renames| && renames[i] == Rename.Rename(name, other) &&
                                            forall j | 0 <= j < i :: renames[j].purpleName != name
  {
    if renames != [] && renames[0].purpleName != name {
      LookupFindsFirst(renames[1..], name);
      if other :| Lookup(renames, name) == Some(other) {
        var i :| 0 <= i < |renames[1..]| && renames[1..][i] == Rename.Rename(name, other) &&
          forall j | 0 <= j < i :: renames[1..][j].purpleName != name;
        assert renames[i + 1] == Rename.Rename(name, other);
        assert forall j | 1 <= j < i + 1 :: renames[j] == renames[1..][j - 1];
      }
    }
  }

  ghost predicate EndsIn(name: Name, end: Name) {
    exists start :: name == start + end
  }

  lemma EndsInMeans(name: Name, end: Name)
    ensures HasSuffix(name, end) <==> EndsIn(name, end)
  {
    if HasSuffix(name, end) {
      assert name == name[..|name| - |end|] + end;
    }
  }

  /** The name that an option has been given for Telepathy, or its own. */
  ghost function NameFrom(p: ProtocolInfo, o: AccountOption): Name {
    match Lookup(p.renames, o.prefName)
    case Some(name) => name
    case None => o.prefName
  }

  /** An option has no parameter exactly if it is to be ignored or of a type that haze does not know. The parameter's
      name has hyphens for underscores, and is without the prefix that an option of Facebook's has. */
  lemma OptionNameIs(p: ProtocolInfo, o: AccountOption)
    ensures OptionSpec(p, o).None? <==> Lookup(p.renames, o.prefName) == Some(IGNORE) || o.prefType.OtherPref?
    ensures OptionSpec(p, o).Some? ==>
              var from, name := NameFrom(p, o), OptionSpec(p, o).value.name;
              && '_' !in name && OptionSpec(p, o).value.setter == Some(o.prefName)
              && |name| == |from| - (if "facebook_" <= from then 9 else 0)
              && forall i | 0 <= i < |name| ::
                   var c := from[|from| - |name| + i]; name[i] == if c == '_' then '-' else c
  {
  }

  /** The type of an option's parameter: a port is 16 bits wide, other numbers are 32. */
  lemma OptionTypeIs(p: ProtocolInfo, o: AccountOption)
    ensures OptionSpec(p, o).Some? ==>
              var spec := OptionSpec(p, o).value;
              && (spec.dtype == DUint16 <==> o.prefType.IntPref? && EndsIn(spec.name, "port"))
              && (spec.dtype == DInt32 <==> o.prefType.IntPref? && !EndsIn(spec.name, "port"))
              && (spec.dtype == DBool <==> o.prefType.BooleanPref?)
              && (spec.dtype == DString <==> o.prefType.StringPref? || o.prefType.StringListPref?)
  {
    if OptionSpec(p, o).Some? {
      EndsInMeans(OptionSpec(p, o).value.name, "port");
    }
  }

  /** An option's default is the parameter's, unless it is an empty string or a name that the user is to give; a server
      is to have no blanks, and a choice must be one of those offered. */
  lemma OptionDefaultIs(p: ProtocolInfo, o: AccountOption)
    ensures OptionSpec(p, o).Some? ==>
              var traits := OptionSpec(p, o).value.traits;
              && (traits.default.Some? ==> traits.default == Some(o.default))
              && (traits.default.None? <==>
                    traits.required || (OptionSpec(p, o).value.dtype.DString? && o.default in {NullString, Str("")}))
              && (traits.filter == NoBlanks <==> OptionSpec(p, o).value.name == "server")
              && (traits.filter.OneOf? <==> o.prefType.StringListPref? && OptionSpec(p, o).value.name != "server")
              && (traits.filter.OneOf? ==> traits.filter.choices == o.choices)
  {
  }

  ghost predicate IsPerson(p: ProtocolInfo, spec: ParamSpec, o: AccountOption) {
    && IsOptionSpec(p, spec, o) && o.prefType.StringPref?
    && p.prplId == "prpl-bonjour" && (spec.name == "first-name" || spec.name == "last-name")
  }

  /** The parameters that must be given: the account, and on the local network the names of its user. */
  lemma RequiredIff(p: ProtocolInfo, spec: ParamSpec)
    requires Distinct(p) && spec in Specs(p)
    ensures spec.traits.required <==> spec.name == "account" || exists o :: IsPerson(p, spec, o)
  {
    SpecsAre(p, ACCOUNT_SPEC);
    SpecsAre(p, spec);
    if o :| IsOptionSpec(p, spec, o) {
      assert spec.traits.required ==> IsPerson(p, spec, o);
      if o' :| IsPerson(p, spec, o') {
        assert o'.prefName == o.prefName;
      }
    }
  }

  ghost predicate IsSecret(p: ProtocolInfo, spec: ParamSpec, o: AccountOption) {
    IsOptionSpec(p, spec, o) && EndsIn(spec.name, "-password")
  }

  /** The parameters that are kept secret: the password, and options whose names end like it. */
  lemma SecretIff(p: ProtocolInfo, spec: ParamSpec)
    requires Distinct(p) && spec in Specs(p)
    ensures spec.traits.secret <==> spec.setter == Some("password") || exists o :: IsSecret(p, spec, o)
  {
    SpecsAre(p, spec);
    if spec.setter.Some? {
      SetterTells(p, spec);
    }
    EndsInMeans(spec.name, "-password");
    if o :| IsOptionSpec(p, spec, o) {
      assert OwnName(o.prefName);
      assert spec.traits.secret ==> IsSecret(p, spec, o);
    }
  }

  /** The parts of the username are parameters exactly if there are any and the first has been given a name. */
  lemma SplitsShownIff(p: ProtocolInfo)
    ensures SplitsShown(p) <==> p.splits != [] && exists r :: r in p.renames && r.purpleName == "usersplit1"
  {
    LookupFindsFirst(p.renames, UserSplitName(1));
    assert UserSplitName(1) == "usersplit1";
  }

  // ----- The folding of connection_security -----

  /** Two parameters have no name in libpurple exactly if the protocol is one whose connection_security is mended and
      has that option; every other parameter has one. */
  lemma FoldedIff(p: ProtocolInfo)
    ensures (exists spec :: spec in Specs(p) && spec.setter.None?) <==>
            p.jabber && exists o :: o in p.options && o.prefName == "connection_security"
    ensures forall spec | spec in Specs(p) && spec.setter.None? ::
              spec == OldSslSpec(p) || spec == RequireEncryptionSpec(p)
  {
    SpecsAre(p, OldSslSpec(p));
    forall spec | spec in Specs(p) && spec.setter.None?
      ensures SecurityFolded(p) && (spec == OldSslSpec(p) || spec == RequireEncryptionSpec(p))
    {
      SpecsAre(p, spec);
    }
  }

  ghost predicate Asked(asv: Params, name: Name) {
    name in asv && asv[name] == Bool(true)
  }

  /** What is made of old-ssl and require-encryption: the old kind of SSL wins, and without either, encryption is
      opportunistic. */
  lemma SecurityIs(asv: Params)
    ensures Security(asv) == Str("old_ssl") <==> Asked(asv, "old-ssl")
    ensures Security(asv) == Str("require_tls") <==> !Asked(asv, "old-ssl") && Asked(asv, "require-encryption")
    ensures Security(asv) == Str("opportunistic_tls") <==> !Asked(asv, "old-ssl") && !Asked(asv, "require-encryption")
  {
    assert "old_ssl"[0] == 'o' && "require_tls"[0] == 'r' && "opportunistic_tls"[1] == 'p' && "old_ssl"[1] == 'l';
  }

  /** The two parameters default to true, both or the second alone, or to false, as the option's default has it; they
      have no default where that is not one known. */
  lemma SecurityDefaultsAre(p: ProtocolInfo)
    ensures var default := SecurityDefault(p.options);
            var oldSsl, require := OldSslSpec(p).traits.default, RequireEncryptionSpec(p).traits.default;
            && (oldSsl == Some(Bool(true)) <==> default == Str("old_ssl"))
            && (require == Some(Bool(true)) <==> default == Str("old_ssl") || default == Str("require_tls"))
            && (require == Some(Bool(false)) <==> default == Str("opportunistic_tls"))
            && (oldSsl == Some(Bool(false)) <==> default == Str("require_tls") || default == Str("opportunistic_tls"))
            && (oldSsl.None? <==> require.None?)
    ensures OldSslSpec(p).name == "old-ssl" && RequireEncryptionSpec(p).name == "require-encryption"
    ensures OldSslSpec(p).dtype == RequireEncryptionSpec(p).dtype == DBool
  {
    assert "old_ssl"[0] == 'o' && "require_tls"[0] == 'r' && "opportunistic_tls"[1] == 'p' && "old_ssl"[1] == 'l';
  }

  /** How a value is read for an option: a flag is up only if it is true, a number is 0 unless it is one of 32 bits, a
      text is there only if it is one. */
  lemma OptionValueIs(prefType: PrefType, v: Value)
    ensures match prefType
            case BooleanPref => OptionValue(prefType, v) == Some(Bool(v == Bool(true)))
            case IntPref =>
              exists n :: OptionValue(prefType, v) == Some(Int(n)) && -0x8000_0000 <= n < 0x8000_0000 &&
                          if exists m :: v == Int(m) && -0x8000_0000 <= m < 0x8000_0000 then v == Int(n) else n == 0
            case OtherPref => OptionValue(prefType, v) == None
            case _ => exists t :: OptionValue(prefType, v) == Some(t) && if v.Str? then t == v else t == NullString
  {
    if prefType.IntPref? {
      assert OptionValue(prefType, v) == Some(Int(GetInt32(v)));
    } else if prefType.StringPref? || prefType.StringListPref? {
      assert OptionValue(prefType, v) == Some(if v.Str? then v else NullString);
    }
  }
}
