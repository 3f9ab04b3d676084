/** Merging a declarative config into the prefs: everything is judged before anything is written. */
module ConfFile {
  import opened Bytes
  import opened Prefs
  import Utf8
  import Routes

  datatype AutoUpdate = AutoUpdate(check: bool, apply: Option<bool>)

  /** The honoured keys of the config; `None` is an absent key. */
  datatype Config = Config(
    serverUrl: Option<bytes>, authKey: Option<bytes>, enabled: Option<bool>, operatorUser: Option<bytes>,
    hostname: Option<bytes>, acceptDns: Option<bool>, acceptRoutes: Option<bool>, exitNode: Option<bytes>,
    allowLan: Option<bool>, advertiseRoutes: Option<seq<bytes>>, advertiseExitNode: Option<bool>,
    appConnector: Option<bool>, postureChecking: Option<bool>, runSshServer: Option<bool>,
    runWebClient: Option<bool>, shieldsUp: Option<bool>, autoUpdate: Option<AutoUpdate>)

  /** What the merge asks the outside: the prefix and URL parsers, the file system, and why this host
      can never update itself. */
  datatype Host = Host(
    parseRoute: bytes -> Option<Routes.IpNet>, urlScheme: bytes -> Option<bytes>,
    readFile: bytes -> Option<bytes>, updateRefusal: Option<bytes>)

  datatype ConfigError =
    | InvalidUrl
    | BadScheme(scheme: bytes)
    | RefusedRoutes(goRules: seq<Routes.RouteError>, ourRules: seq<Routes.RouteError>)
    | EmptyExitNode
    | AutoExitNode
    | AutoUpdateRefused(reason: bytes)
    | AuthKeyUnreadable
    | AuthKeyEmpty

  const HTTP: bytes := [0x68, 0x74, 0x74, 0x70]
  const HTTPS: bytes := [0x68, 0x74, 0x74, 0x70, 0x73]
  const AUTO: bytes := [0x61, 0x75, 0x74, 0x6F, 0x3A]
  const FILE: bytes := [0x66, 0x69, 0x6C, 0x65, 0x3A]

  function OrElse(o: Option<bool>, d: bool): bool {
    match o case None => d case Some(v) => v
  }

  function OrRoutes(o: Option<seq<bytes>>, d: seq<bytes>): seq<bytes> {
    match o case None => d case Some(v) => v
  }

  /** A present key replaces the pref, an absent one keeps it. */
  function Override<T>(o: Option<T>, p: Option<T>): Option<T> {
    if o.Some? then o else p
  }

  // --- the validation phase -----------------------------------------------------------------

  function CheckUrl(c: Config, host: Host): Option<ConfigError> {
    match c.serverUrl
    case None => None
    case Some(url) =>
      match host.urlScheme(url)
      case None => Some(InvalidUrl)
      case Some(scheme) => if scheme == HTTP || scheme == HTTPS then None else Some(BadScheme(scheme))
  }

  function CheckRoutes(c: Config, p: PrefsData, host: Host): Option<ConfigError> {
    match Routes.Calc(host.parseRoute, OrRoutes(c.advertiseRoutes, p.connection.advertiseRoutes), OrElse(c.advertiseExitNode, p.services.advertiseExitNode))
    case Ok(_) => None
    case Err(errors) => Some(RefusedRoutes(Routes.GoRules(errors), Routes.OurRules(errors)))
  }

  function CheckExitNode(c: Config): Option<ConfigError> {
    match c.exitNode
    case None => None
    case Some(exit) =>
      var e := Utf8.Trim(exit);
      if e == [] then Some(EmptyExitNode) else if AUTO <= e then Some(AutoExitNode) else None
  }

  /** An opt-in this host could never honour. */
  function CheckAutoUpdate(c: Config, host: Host): Option<ConfigError> {
    if c.autoUpdate.Some? && c.autoUpdate.value.apply == Some(true) && host.updateRefusal.Some?
    then Some(AutoUpdateRefused(host.updateRefusal.value)) else None
  }

  /** The first refusal, in the source's order. */
  function Check(c: Config, p: PrefsData, host: Host): Option<ConfigError> {
    Override(CheckUrl(c, host),
      Override(CheckRoutes(c, p, host), Override(CheckExitNode(c), CheckAutoUpdate(c, host))))
  }

  // --- the write phase ----------------------------------------------------------------------

  /** An empty operator name means no operator. */
  function Operator(o: Option<bytes>, p: Option<bytes>): Option<bytes> {
    if o == Some([]) then None else Override(o, p)
  }

  function UpdateCheck(o: Option<AutoUpdate>, p: bool): bool {
    match o case None => p case Some(u) => u.check
  }

  function UpdateApply(o: Option<AutoUpdate>, p: Option<bool>): Option<bool> {
    match o case None => p case Some(u) => u.apply
  }

  function MergeConnection(c: Config, p: Connection): Connection {
    Connection(OrElse(c.enabled, true), Override(c.serverUrl, p.controlUrl), Override(c.hostname, p.hostname),
               OrElse(c.acceptRoutes, p.acceptRoutes), OrElse(c.acceptDns, p.acceptDns), OrElse(c.shieldsUp, p.shieldsUp),
               Override(c.exitNode, p.exitNode), OrRoutes(c.advertiseRoutes, p.advertiseRoutes))
  }

  function MergeServices(c: Config, p: Services): Services {
    Services(OrElse(c.runSshServer, p.sshEnabled), OrElse(c.advertiseExitNode, p.advertiseExitNode),
             Operator(c.operatorUser, p.operatorUser), OrElse(c.allowLan, p.exitNodeAllowLanAccess),
             OrElse(c.postureChecking, p.postureChecking), OrElse(c.runWebClient, p.runWebClient),
             OrElse(c.appConnector, p.advertiseAppConnector),
             UpdateCheck(c.autoUpdate, p.autoUpdateCheck), UpdateApply(c.autoUpdate, p.autoUpdateApply))
  }

  function Merge(c: Config, p: PrefsData): PrefsData {
    PrefsData(MergeConnection(c, p.connection), MergeServices(c, p.services), p.other)
  }

  /** `resolve_auth_key` behind the empty-key guard. */
  function AuthKey(c: Config, host: Host): Result<Option<bytes>, ConfigError> {
    match c.authKey
    case None => Ok(None)
    case Some(k) =>
      if k == [] then Ok(None)
      else if FILE <= k then
        match host.readFile(k[|FILE|..])
        case None => Err(AuthKeyUnreadable)
        case Some(contents) =>
          var key := Utf8.Trim(contents);
          if key == [] then Err(AuthKeyEmpty) else Ok(Some(key))
      else Ok(Some(k))
  }

  /** `apply_to_prefs_gated`: its answer and the prefs it leaves. */
  function Apply(c: Config, p: PrefsData, host: Host): (Result<Option<bytes>, ConfigError>, PrefsData) {
    match Check(c, p, host)
    case Some(e) => (Err(e), p)
    case None => (AuthKey(c, host), Merge(c, p))
  }

  // --- laws ---------------------------------------------------------------------------------

  /** The routes that were judged are the routes that are written. */
  lemma JudgedIsWritten(c: Config, p: PrefsData, host: Host)
    ensures CheckRoutes(c, p, host) == CheckRoutes(c, Merge(c, p), host)
    ensures CheckRoutes(c, p, host).None? <==>
            Routes.Calc(host.parseRoute, Merge(c, p).connection.advertiseRoutes, Merge(c, p).services.advertiseExitNode).Ok?
  {
    hide Routes.Calc, Routes.GoRules, Routes.OurRules;
  }

  /** After every merge that writes, the stored routes are a set the node may advertise. */
  lemma MergedRoutesAreAdvertisable(c: Config, p: PrefsData, host: Host)
    requires Check(c, p, host).None?
    ensures var p' := Apply(c, p, host).1;
            Routes.Calc(host.parseRoute, p'.connection.advertiseRoutes, p'.services.advertiseExitNode).Ok?
  {
    hide Merge, CheckRoutes, Routes.Calc;
    JudgedIsWritten(c, p, host);
  }

  /** Applying the same config again gives the same answer and changes nothing. */
  lemma ApplyIsIdempotent(c: Config, p: PrefsData, host: Host)
    ensures var (r, p') := Apply(c, p, host); Apply(c, p', host) == (r, p')
  {
    JudgedIsWritten(c, p, host);
    MergeTwice(c, p);
    hide Merge, CheckRoutes, CheckExitNode, CheckUrl, CheckAutoUpdate, AuthKey;
  }

  lemma Twice(o: Option<bool>, under: Option<bool>, d: bool)
    ensures OrElse(o, OrElse(under, d)) == OrElse(Override(o, under), d)
  {
  }

  lemma TwiceRoutes(o: Option<seq<bytes>>, under: Option<seq<bytes>>, d: seq<bytes>)
    ensures OrRoutes(o, OrRoutes(under, d)) == OrRoutes(Override(o, under), d)
  {
  }

  lemma TwiceOption(o: Option<bytes>, under: Option<bytes>, d: Option<bytes>)
    ensures Override(o, Override(under, d)) == Override(Override(o, under), d)
  {
  }

  lemma TwiceOperator(o: Option<bytes>, under: Option<bytes>, d: Option<bytes>)
    ensures Operator(o, Operator(under, d)) == Operator(Override(o, under), d)
  {
  }

  lemma TwiceUpdate(o: Option<AutoUpdate>, under: Option<AutoUpdate>, b: bool, a: Option<bool>)
    ensures UpdateCheck(o, UpdateCheck(under, b)) == UpdateCheck(Override(o, under), b)
    ensures UpdateApply(o, UpdateApply(under, a)) == UpdateApply(Override(o, under), a)
  {
  }

  lemma MergeTwice(c: Config, p: PrefsData)
    ensures Merge(c, Merge(c, p)) == Merge(c, p)
  {
    hide Merge;
    MergesCompose(c, c, p);
    assert Overlay(c, c) == c;
  }

  /** A later config is laid over an earlier one: what the earlier one said survives exactly where
      the later one is silent. */
  function Overlay(over: Config, under: Config): Config {
    Config(Override(over.serverUrl, under.serverUrl), Override(over.authKey, under.authKey), over.enabled,
           Override(over.operatorUser, under.operatorUser), Override(over.hostname, under.hostname),
           Override(over.acceptDns, under.acceptDns), Override(over.acceptRoutes, under.acceptRoutes),
           Override(over.exitNode, under.exitNode), Override(over.allowLan, under.allowLan),
           Override(over.advertiseRoutes, under.advertiseRoutes), Override(over.advertiseExitNode, under.advertiseExitNode),
           Override(over.appConnector, under.appConnector), Override(over.postureChecking, under.postureChecking),
           Override(over.runSshServer, under.runSshServer), Override(over.runWebClient, under.runWebClient),
           Override(over.shieldsUp, under.shieldsUp), Override(over.autoUpdate, under.autoUpdate))
  }

  lemma MergesCompose(first: Config, second: Config, p: PrefsData)
    ensures Merge(second, Merge(first, p)) == Merge(Overlay(second, first), p)
  {
    hide MergeConnection, MergeServices;
    ConnectionsCompose(first, second, p.connection);
    ServicesCompose(first, second, p.services);
  }

  lemma ConnectionsCompose(first: Config, second: Config, p: Connection)
    ensures MergeConnection(second, MergeConnection(first, p)) == MergeConnection(Overlay(second, first), p)
  {
    hide OrElse, OrRoutes, Override;
    TwiceOption(second.serverUrl, first.serverUrl, p.controlUrl);
    TwiceOption(second.hostname, first.hostname, p.hostname);
    Twice(second.acceptDns, first.acceptDns, p.acceptDns);
    Twice(second.acceptRoutes, first.acceptRoutes, p.acceptRoutes);
    TwiceOption(second.exitNode, first.exitNode, p.exitNode);
    TwiceRoutes(second.advertiseRoutes, first.advertiseRoutes, p.advertiseRoutes);
    Twice(second.shieldsUp, first.shieldsUp, p.shieldsUp);
  }

  lemma ServicesCompose(first: Config, second: Config, p: Services)
    ensures MergeServices(second, MergeServices(first, p)) == MergeServices(Overlay(second, first), p)
  {
    hide OrElse, Operator, UpdateCheck, UpdateApply, Override;
    Twice(second.runSshServer, first.runSshServer, p.sshEnabled);
    Twice(second.advertiseExitNode, first.advertiseExitNode, p.advertiseExitNode);
    TwiceOperator(second.operatorUser, first.operatorUser, p.operatorUser);
    Twice(second.allowLan, first.allowLan, p.exitNodeAllowLanAccess);
    Twice(second.postureChecking, first.postureChecking, p.postureChecking);
    Twice(second.runWebClient, first.runWebClient, p.runWebClient);
    Twice(second.appConnector, first.appConnector, p.advertiseAppConnector);
    TwiceUpdate(second.autoUpdate, first.autoUpdate, p.autoUpdateCheck, p.autoUpdateApply);
  }

  const ABSENT: Config := Config(None, None, None, None, None, None, None, None, None, None, None, None, None, None, None, None, None)

  /** An absent key keeps its pref, a present one writes its value. */
  predicate Written<T(==)>(key: Option<T>, was: T, now: T) {
    (key.None? ==> now == was) && (key.Some? ==> now == key.value)
  }

  /** Likewise for a pref that may be unset. */
  predicate WrittenSome<T(==)>(key: Option<T>, was: Option<T>, now: Option<T>) {
    (key.None? ==> now == was) && (key.Some? ==> now == Some(key.value))
  }

  predicate ConnectionWritten(c: Config, p: Connection, q: Connection) {
    && (q.wantRunning <==> c.enabled != Some(false))
    && WrittenSome(c.serverUrl, p.controlUrl, q.controlUrl) && WrittenSome(c.hostname, p.hostname, q.hostname)
    && Written(c.acceptRoutes, p.acceptRoutes, q.acceptRoutes) && Written(c.acceptDns, p.acceptDns, q.acceptDns)
    && Written(c.shieldsUp, p.shieldsUp, q.shieldsUp) && WrittenSome(c.exitNode, p.exitNode, q.exitNode)
    && Written(c.advertiseRoutes, p.advertiseRoutes, q.advertiseRoutes)
  }

  predicate ServicesWritten(c: Config, p: Services, q: Services) {
    && Written(c.runSshServer, p.sshEnabled, q.sshEnabled)
    && Written(c.advertiseExitNode, p.advertiseExitNode, q.advertiseExitNode)
    && (if c.operatorUser == Some([]) then q.operatorUser == None else WrittenSome(c.operatorUser, p.operatorUser, q.operatorUser))
    && Written(c.allowLan, p.exitNodeAllowLanAccess, q.exitNodeAllowLanAccess)
    && Written(c.postureChecking, p.postureChecking, q.postureChecking)
    && Written(c.runWebClient, p.runWebClient, q.runWebClient)
    && Written(c.appConnector, p.advertiseAppConnector, q.advertiseAppConnector)
    && (if c.autoUpdate.None? then q.autoUpdateCheck == p.autoUpdateCheck && q.autoUpdateApply == p.autoUpdateApply
        else q.autoUpdateCheck == c.autoUpdate.value.check && q.autoUpdateApply == c.autoUpdate.value.apply)
  }

  lemma ConnectionExactly(c: Config, p: Connection, q: Connection)
    ensures q == MergeConnection(c, p) <==> ConnectionWritten(c, p, q)
  {
  }

  lemma ServicesExactly(c: Config, p: Services, q: Services)
    ensures q == MergeServices(c, p) <==> ServicesWritten(c, p, q)
  {
  }

  /** For every config and all prefs, the merge leaves the one state in which each absent key has kept its
      pref, each present key has written its value, the node is on unless the config turns it off, and the
      prefs without a key are as they were. */
  lemma MergeExactly(c: Config, p: PrefsData, q: PrefsData)
    ensures q == Merge(c, p) <==>
              && ConnectionWritten(c, p.connection, q.connection) && ServicesWritten(c, p.services, q.services)
              && q.other == p.other
  {
    hide MergeConnection, MergeServices, ConnectionWritten, ServicesWritten;
    ConnectionExactly(c, p.connection, q.connection);
    ServicesExactly(c, p.services, q.services);
  }

  /** A present key that is not what the pref already is. */
  predicate Differs<T(==)>(key: Option<T>, pref: T) {
    key.Some? && key.value != pref
  }

  predicate DiffersSome<T(==)>(key: Option<T>, pref: Option<T>) {
    key.Some? && pref != Some(key.value)
  }

  predicate ConnectionDiffers(c: Config, p: Connection) {
    || (c.enabled != Some(false)) != p.wantRunning
    || DiffersSome(c.serverUrl, p.controlUrl) || DiffersSome(c.hostname, p.hostname)
    || Differs(c.acceptRoutes, p.acceptRoutes) || Differs(c.acceptDns, p.acceptDns)
    || Differs(c.shieldsUp, p.shieldsUp) || DiffersSome(c.exitNode, p.exitNode)
    || Differs(c.advertiseRoutes, p.advertiseRoutes)
  }

  predicate ServicesDiffers(c: Config, p: Services) {
    || Differs(c.runSshServer, p.sshEnabled) || Differs(c.advertiseExitNode, p.advertiseExitNode)
    || (if c.operatorUser == Some([]) then p.operatorUser.Some? else DiffersSome(c.operatorUser, p.operatorUser))
    || Differs(c.allowLan, p.exitNodeAllowLanAccess) || Differs(c.postureChecking, p.postureChecking)
    || Differs(c.runWebClient, p.runWebClient) || Differs(c.appConnector, p.advertiseAppConnector)
    || (c.autoUpdate.Some? && (c.autoUpdate.value.check != p.autoUpdateCheck || c.autoUpdate.value.apply != p.autoUpdateApply))
  }

  lemma ConnectionKeptExactly(c: Config, p: Connection)
    ensures ConnectionWritten(c, p, p) <==> !ConnectionDiffers(c, p)
  {
  }

  lemma ServicesKeptExactly(c: Config, p: Services)
    ensures ServicesWritten(c, p, p) <==> !ServicesDiffers(c, p)
  {
  }

  /** A merge changes the prefs exactly when the node is not already as the config has it, or some present
      key differs from its pref. */
  lemma MergeChangesExactly(c: Config, p: PrefsData)
    ensures Merge(c, p) != p <==> ConnectionDiffers(c, p.connection) || ServicesDiffers(c, p.services)
  {
    hide Merge, ConnectionWritten, ServicesWritten, ConnectionDiffers, ServicesDiffers;
    MergeExactly(c, p, p);
    ConnectionKeptExactly(c, p.connection);
    ServicesKeptExactly(c, p.services);
  }

  /** A host that cannot update itself is never made to claim it by a config. */
  lemma NoEmptyUpdatePromise(c: Config, p: PrefsData, host: Host)
    requires Check(c, p, host).None? && host.updateRefusal.Some?
    ensures Apply(c, p, host).1.services.autoUpdateApply == Some(true) ==> p.services.autoUpdateApply == Some(true)
  {
    hide CheckRoutes, CheckExitNode, CheckUrl;
  }

  /** The auth key comes from a file and cannot be had. */
  predicate KeyFileFails(c: Config, host: Host) {
    && c.authKey.Some? && FILE <= c.authKey.value
    && (host.readFile(c.authKey.value[|FILE|..]).None?
        || Utf8.Trim(host.readFile(c.authKey.value[|FILE|..]).value) == [])
  }

  /** The merge is not all-or-nothing, and this is exactly when: an error with changed prefs happens
      if and only if the config passes every check, its key file fails, and the node is not already as the
      config has it or some present key differs from its pref. */
  lemma ErrorAfterWriting(c: Config, p: PrefsData, host: Host)
    ensures var (r, p') := Apply(c, p, host);
            r.Err? && p' != p <==>
              && Check(c, p, host).None? && KeyFileFails(c, host)
              && (ConnectionDiffers(c, p.connection) || ServicesDiffers(c, p.services))
  {
    hide Merge, Check, Utf8.Trim, ConnectionDiffers, ServicesDiffers;
    MergeChangesExactly(c, p);
  }

  /** A config with nothing but a key file that is not there: refused, with the node left turned on. */
  lemma ErrorAfterWritingHappens(host: Host)
    requires host.readFile([]).None?
    ensures var c := ABSENT.(authKey := Some(FILE));
            Apply(c, DEFAULT, host) == (Err(AuthKeyUnreadable), DEFAULT.(connection := DEFAULT.connection.(wantRunning := true)))
  {
    var c := ABSENT.(authKey := Some(FILE));
    assert FILE[|FILE|..] == [];
    assert Routes.Faults(host.parseRoute, []) == [] && Routes.Good(host.parseRoute, []) == [];
    assert Routes.Composed(host.parseRoute, [], false) == [];
    assert CheckRoutes(c, DEFAULT, host).None?;
  }

  // --- what is accepted, and what the answer holds ------------------------------------------

  /** The scheme is `http` or `https`. */
  predicate UrlAccepted(c: Config, host: Host) {
    c.serverUrl.Some? ==>
      host.urlScheme(c.serverUrl.value) == Some([0x68, 0x74, 0x74, 0x70])
      || host.urlScheme(c.serverUrl.value) == Some([0x68, 0x74, 0x74, 0x70, 0x73])
  }

  /** The routes and the flag, from the config where it has them and from the prefs where not, are a set that
      may be advertised. */
  predicate RoutesAccepted(c: Config, p: PrefsData, host: Host) {
    var routes := if c.advertiseRoutes.Some? then c.advertiseRoutes.value else p.connection.advertiseRoutes;
    var exitNode := if c.advertiseExitNode.Some? then c.advertiseExitNode.value else p.services.advertiseExitNode;
    Routes.Calc(host.parseRoute, routes, exitNode).Ok?
  }

  /** Something is named, and not by `auto:`. */
  predicate ExitNodeAccepted(c: Config) {
    c.exitNode.Some? ==>
      var e := Utf8.Trim(c.exitNode.value);
      e != [] && !([0x61, 0x75, 0x74, 0x6F, 0x3A] <= e)
  }

  predicate UpdateAccepted(c: Config, host: Host) {
    c.autoUpdate.Some? && c.autoUpdate.value.apply == Some(true) ==> host.updateRefusal == None
  }

  /** The checks pass exactly when all four are accepted; and the refusal is for the first that is not. */
  lemma CheckExactly(c: Config, p: PrefsData, host: Host)
    ensures Check(c, p, host) == None <==>
              UrlAccepted(c, host) && RoutesAccepted(c, p, host) && ExitNodeAccepted(c) && UpdateAccepted(c, host)
    ensures !UrlAccepted(c, host) ==>
              Check(c, p, host) == Some(match host.urlScheme(c.serverUrl.value)
                                        case None => InvalidUrl
                                        case Some(scheme) => BadScheme(scheme))
    ensures UrlAccepted(c, host) && !RoutesAccepted(c, p, host) ==>
              var routes := if c.advertiseRoutes.Some? then c.advertiseRoutes.value else p.connection.advertiseRoutes;
              var exitNode := if c.advertiseExitNode.Some? then c.advertiseExitNode.value else p.services.advertiseExitNode;
              var errors := Routes.Calc(host.parseRoute, routes, exitNode).error;
              Check(c, p, host) == Some(RefusedRoutes(Routes.GoRules(errors), Routes.OurRules(errors)))
    ensures UrlAccepted(c, host) && RoutesAccepted(c, p, host) && !ExitNodeAccepted(c) ==>
              Check(c, p, host) == Some(if Utf8.Trim(c.exitNode.value) == [] then EmptyExitNode else AutoExitNode)
    ensures UrlAccepted(c, host) && RoutesAccepted(c, p, host) && ExitNodeAccepted(c) && !UpdateAccepted(c, host) ==>
              Check(c, p, host) == Some(AutoUpdateRefused(host.updateRefusal.value))
  {
    hide Routes.Calc, Utf8.Trim, Routes.GoRules, Routes.OurRules;
  }

  /** A key that is given as it is, or `file:` and a path whose trimmed contents it is. */
  predicate Names(given: bytes, key: bytes, host: Host) {
    if [0x66, 0x69, 0x6C, 0x65, 0x3A] <= given then
      var contents := host.readFile(given[5..]);
      contents.Some? && Utf8.Trim(contents.value) == key
    else given == key
  }

  /** The answer: no key exactly when the checks pass and the config has none or an empty one; a key exactly
      when they pass and it is the one, not empty, that the config names. */
  lemma AnswerExactly(c: Config, p: PrefsData, host: Host, key: bytes)
    ensures Apply(c, p, host).0 == Ok(None) <==> Check(c, p, host) == None && (c.authKey == None || c.authKey == Some([]))
    ensures Apply(c, p, host).0 == Ok(Some(key)) <==>
              Check(c, p, host) == None && key != [] && c.authKey.Some? && Names(c.authKey.value, key, host)
  {
    hide Check, Merge, Utf8.Trim;
    TrimOfEmpty();
  }

  lemma TrimOfEmpty()
    ensures Utf8.Trim([]) == []
  {
  }

  // --- the source's statements --------------------------------------------------------------

  /** The validation phase: reads, and at the first refusal returns it. */
  method Validate(c: Config, prefs: Prefs, host: Host) returns (r: Option<ConfigError>)
    ensures r == Check(c, prefs.Data(), host)
  {
    hide Routes.Calc, Routes.GoRules, Routes.OurRules, Utf8.Trim;
    if c.serverUrl.Some? {
      var scheme := host.urlScheme(c.serverUrl.value);
      if scheme.None? {
        return Some(InvalidUrl);
      }
      if scheme.value != HTTP && scheme.value != HTTPS {
        return Some(BadScheme(scheme.value));
      }
    }
    var prospectiveRoutes := if c.advertiseRoutes.Some? then c.advertiseRoutes.value else prefs.connection.advertiseRoutes;
    var prospectiveExit := OrElse(c.advertiseExitNode, prefs.services.advertiseExitNode);
    var set_ := Routes.CalcAdvertiseRoutes(host.parseRoute, prospectiveRoutes, prospectiveExit);
    if set_.Err? {
      return Some(RefusedRoutes(Routes.GoRules(set_.error), Routes.OurRules(set_.error)));
    }
    if c.exitNode.Some? {
      var e := Utf8.Trim(c.exitNode.value);
      if e == [] {
        return Some(EmptyExitNode);
      }
      if AUTO <= e {
        return Some(AutoExitNode);
      }
    }
    if c.autoUpdate.Some? && c.autoUpdate.value.apply == Some(true) && host.updateRefusal.Some? {
      return Some(AutoUpdateRefused(host.updateRefusal.value));
    }
    return None;
  }

  /** The write phase, one field after another: a present key is written, an absent one is not. */
  method WriteConnection(c: Config, prefs: Prefs)
    modifies prefs`connection
    ensures prefs.connection == MergeConnection(c, old(prefs.connection))
  {
    hide OrElse, OrRoutes, Override;
    prefs.connection := prefs.connection.(wantRunning := OrElse(c.enabled, true));
    prefs.connection := prefs.connection.(controlUrl := Override(c.serverUrl, prefs.connection.controlUrl));
    prefs.connection := prefs.connection.(hostname := Override(c.hostname, prefs.connection.hostname));
    prefs.connection := prefs.connection.(acceptDns := OrElse(c.acceptDns, prefs.connection.acceptDns));
    prefs.connection := prefs.connection.(acceptRoutes := OrElse(c.acceptRoutes, prefs.connection.acceptRoutes));
    prefs.connection := prefs.connection.(exitNode := Override(c.exitNode, prefs.connection.exitNode));
    prefs.connection := prefs.connection.(advertiseRoutes := OrRoutes(c.advertiseRoutes, prefs.connection.advertiseRoutes));
    prefs.connection := prefs.connection.(shieldsUp := OrElse(c.shieldsUp, prefs.connection.shieldsUp));
  }

  function MergeRoles(c: Config, p: Services): Services {
    p.(sshEnabled := OrElse(c.runSshServer, p.sshEnabled),
       advertiseExitNode := OrElse(c.advertiseExitNode, p.advertiseExitNode),
       operatorUser := Operator(c.operatorUser, p.operatorUser),
       exitNodeAllowLanAccess := OrElse(c.allowLan, p.exitNodeAllowLanAccess))
  }

  function MergeFeatures(c: Config, p: Services): Services {
    p.(postureChecking := OrElse(c.postureChecking, p.postureChecking),
       runWebClient := OrElse(c.runWebClient, p.runWebClient),
       advertiseAppConnector := OrElse(c.appConnector, p.advertiseAppConnector),
       autoUpdateCheck := UpdateCheck(c.autoUpdate, p.autoUpdateCheck),
       autoUpdateApply := UpdateApply(c.autoUpdate, p.autoUpdateApply))
  }

  lemma ServicesInTwoRuns(c: Config, p: Services)
    ensures MergeFeatures(c, MergeRoles(c, p)) == MergeServices(c, p)
  {
    hide OrElse, Operator, UpdateCheck, UpdateApply;
  }

  method WriteRoles(c: Config, prefs: Prefs)
    modifies prefs`services
    ensures prefs.services == MergeRoles(c, old(prefs.services))
  {
    hide OrElse, Operator;
    prefs.services := prefs.services.(sshEnabled := OrElse(c.runSshServer, prefs.services.sshEnabled));
    prefs.services := prefs.services.(advertiseExitNode := OrElse(c.advertiseExitNode, prefs.services.advertiseExitNode));
    prefs.services := prefs.services.(operatorUser := Operator(c.operatorUser, prefs.services.operatorUser));
    prefs.services := prefs.services.(exitNodeAllowLanAccess := OrElse(c.allowLan, prefs.services.exitNodeAllowLanAccess));
  }

  method WriteFeatures(c: Config, prefs: Prefs)
    modifies prefs`services
    ensures prefs.services == MergeFeatures(c, old(prefs.services))
  {
    hide OrElse, UpdateCheck, UpdateApply;
    prefs.services := prefs.services.(postureChecking := OrElse(c.postureChecking, prefs.services.postureChecking));
    prefs.services := prefs.services.(runWebClient := OrElse(c.runWebClient, prefs.services.runWebClient));
    prefs.services := prefs.services.(advertiseAppConnector := OrElse(c.appConnector, prefs.services.advertiseAppConnector));
    prefs.services := prefs.services.(autoUpdateCheck := UpdateCheck(c.autoUpdate, prefs.services.autoUpdateCheck),
                                      autoUpdateApply := UpdateApply(c.autoUpdate, prefs.services.autoUpdateApply));
  }

  /** `apply_to_prefs_gated`. */
  method ApplyToPrefsGated(c: Config, prefs: Prefs, host: Host) returns (r: Result<Option<bytes>, ConfigError>)
    modifies prefs
    ensures (r, prefs.Data()) == Apply(c, old(prefs.Data()), host)
  {
    hide Check, MergeConnection, MergeServices, MergeRoles, MergeFeatures, Utf8.Trim;
    var refusal := Validate(c, prefs, host);
    if refusal.Some? {
      return Err(refusal.value);
    }
    WriteConnection(c, prefs);
    ServicesInTwoRuns(c, prefs.services);
    WriteRoles(c, prefs);
    WriteFeatures(c, prefs);
    if c.authKey.None? || c.authKey.value == [] {
      return Ok(None);
    }
    var k := c.authKey.value;
    if FILE <= k {
      var contents := host.readFile(k[|FILE|..]);
      if contents.None? {
        return Err(AuthKeyUnreadable);
      }
      var key := Utf8.Trim(contents.value);
      if key == [] {
        return Err(AuthKeyEmpty);
      }
      return Ok(Some(key));
    }
    return Ok(Some(k));
  }
}
