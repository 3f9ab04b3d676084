/** The persisted preferences: the mutable record, its value, and the reset of the `up`-managed part.
    The one flat struct is held as three records, so that each step of a proof sees few fields. */
module Prefs {
  import opened Bytes

  datatype Connection = Connection(
    wantRunning: bool, controlUrl: Option<bytes>, hostname: Option<bytes>, acceptRoutes: bool, acceptDns: bool,
    shieldsUp: bool, exitNode: Option<bytes>, advertiseRoutes: seq<bytes>)

  datatype Services = Services(
    sshEnabled: bool, advertiseExitNode: bool, operatorUser: Option<bytes>, exitNodeAllowLanAccess: bool,
    postureChecking: bool, runWebClient: bool, advertiseAppConnector: bool,
    autoUpdateCheck: bool, autoUpdateApply: Option<bool>)

  /** The fields no config key maps to. */
  datatype Other = Other(
    loggedOut: bool, ephemeral: bool, advertiseTags: seq<bytes>, nodeNickname: Option<bytes>,
    taildropDir: Option<bytes>, tunEnabled: bool, tunName: Option<bytes>, tunMtu: Option<nat>, hasLoggedIn: bool)

  datatype PrefsData = PrefsData(connection: Connection, services: Services, other: Other)

  const DEFAULT: PrefsData := PrefsData(
    Connection(false, None, None, false, true, false, None, []),
    Services(false, false, None, false, false, false, false, true, None),
    Other(false, false, [], None, None, false, None, None, false))

  /** The fields `tnet up` has a flag for are back at their defaults; the rest are kept. */
  function Reset(p: PrefsData): PrefsData {
    var c, s, o := p.connection, p.services, p.other;
    PrefsData(
      Connection(c.wantRunning, None, None, false, true, false, None, []),
      Services(false, false, None, false, false, s.runWebClient, false, s.autoUpdateCheck, s.autoUpdateApply),
      Other(o.loggedOut, o.ephemeral, [], o.nodeNickname, o.taildropDir, false, None, None, o.hasLoggedIn))
  }

  /** The fields a reset leaves alone are the same. */
  predicate SameKept(p: PrefsData, q: PrefsData) {
    && p.connection.wantRunning == q.connection.wantRunning
    && p.services.runWebClient == q.services.runWebClient
    && p.services.autoUpdateCheck == q.services.autoUpdateCheck
    && p.services.autoUpdateApply == q.services.autoUpdateApply
    && p.other.loggedOut == q.other.loggedOut && p.other.ephemeral == q.other.ephemeral
    && p.other.nodeNickname == q.other.nodeNickname && p.other.taildropDir == q.other.taildropDir
    && p.other.hasLoggedIn == q.other.hasLoggedIn
  }

  /** A reset keeps exactly those fields: it changes none of them and forgets everything else. */
  lemma ResetForgetsExactly(p: PrefsData, q: PrefsData)
    ensures SameKept(p, Reset(p))
    ensures Reset(p) == Reset(q) <==> SameKept(p, q)
    ensures SameKept(p, DEFAULT) ==> Reset(p) == DEFAULT
  {
  }

  /** A fresh node: off, nothing configured, DNS accepted, updates checked for and not applied. */
  lemma FreshNode()
    ensures var c := DEFAULT.connection;
            && !c.wantRunning && c.controlUrl == None && c.hostname == None && !c.acceptRoutes && c.acceptDns
            && !c.shieldsUp && c.exitNode == None && c.advertiseRoutes == []
    ensures var s := DEFAULT.services;
            && !s.sshEnabled && !s.advertiseExitNode && s.operatorUser == None && !s.exitNodeAllowLanAccess
            && !s.postureChecking && !s.runWebClient && !s.advertiseAppConnector
            && s.autoUpdateCheck && s.autoUpdateApply == None
    ensures var o := DEFAULT.other;
            && !o.loggedOut && !o.ephemeral && o.advertiseTags == [] && o.nodeNickname == None && o.taildropDir == None
            && !o.tunEnabled && o.tunName == None && o.tunMtu == None && !o.hasLoggedIn
  {
  }

  class Prefs {
    var connection: Connection
    var services: Services
    var other: Other

    constructor (initial: PrefsData)
      ensures Data() == initial
    {
      connection := initial.connection;
      services := initial.services;
      other := initial.other;
    }

    function Data(): PrefsData
      reads this
    {
      PrefsData(connection, services, other)
    }

    /** `reset_up_managed_to_default`. */
    method ResetUpManagedToDefault()
      modifies this
      ensures Data() == Reset(old(Data()))
    {
      var d := DEFAULT;
      connection := connection.(controlUrl := d.connection.controlUrl);
      connection := connection.(hostname := d.connection.hostname);
      connection := connection.(acceptRoutes := d.connection.acceptRoutes);
      connection := connection.(acceptDns := d.connection.acceptDns);
      connection := connection.(shieldsUp := d.connection.shieldsUp);
      connection := connection.(exitNode := d.connection.exitNode);
      services := services.(advertiseExitNode := d.services.advertiseExitNode);
      connection := connection.(advertiseRoutes := d.connection.advertiseRoutes);
      other := other.(advertiseTags := d.other.advertiseTags);
      services := services.(sshEnabled := d.services.sshEnabled);
      services := services.(operatorUser := d.services.operatorUser);
      services := services.(exitNodeAllowLanAccess := d.services.exitNodeAllowLanAccess);
      services := services.(advertiseAppConnector := d.services.advertiseAppConnector);
      services := services.(postureChecking := d.services.postureChecking);
      other := other.(tunEnabled := d.other.tunEnabled);
      other := other.(tunName := d.other.tunName);
      other := other.(tunMtu := d.other.tunMtu);
    }
  }
}
