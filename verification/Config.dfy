/** The validated configuration the engine runs on: which configurations are
    accepted, and how a profile is found and granted. */
module Config {
  import opened Common
  import Networks

  const MAX_SESSION_DURATION: Time := DAY
  const DEFAULT_ISSUES_PER_HOUR: int := 20

  datatype Rule = Rule(destination: Networks.Network, port: int, protocol: string, action: string)

  datatype Profile = Profile(
    name: string,
    duration: Time,
    roles: seq<string>,
    routes: seq<Networks.Network>,
    rules: seq<Rule>)

  datatype SshProfile = SshProfile(
    name: string,
    duration: Time,
    roles: seq<string>,
    principals: seq<string>,
    extensions: seq<string>,
    hosts: seq<string>)

  datatype Config = Config(
    caCertificateFile: string,
    caPrivateFile: string,
    issuesPerHour: Option<int>,
    maxTrackedSessions: int,
    configdirEnabled: bool,
    configdirPath: string,
    profiles: seq<Profile>,
    sshProfiles: seq<SshProfile>,
    template: string)

  // ----- one profile -----

  predicate IsWordChar(c: char) {
    'a' <= c <= 'z' || '0' <= c <= '9' || c == '_' || c == '-'
  }

  predicate IsProfileName(s: string) {
    1 <= |s| <= 64 && forall i | 0 <= i < |s| :: IsWordChar(s[i]) || 'A' <= s[i] <= 'Z'
  }

  predicate IsPrincipalName(s: string) {
    1 <= |s| <= 32 && ('a' <= s[0] <= 'z' || s[0] == '_') && forall i | 0 <= i < |s| :: IsWordChar(s[i])
  }

  predicate IsHostPattern(s: string) {
    1 <= |s| <= 253
    && forall i | 0 <= i < |s| :: IsWordChar(s[i]) || 'A' <= s[i] <= 'Z' || s[i] in "!*?."
  }

  const EXTENSIONS: set<string> := {
    "permit-X11-forwarding", "permit-agent-forwarding", "permit-port-forwarding", "permit-pty", "permit-user-rc"}

  predicate ValidDuration(d: Time) {
    0 < d <= MAX_SESSION_DURATION
  }

  predicate ValidRule(r: Rule) {
    && r.action in {"ACCEPT", "DROP", "REJECT"}
    && r.protocol in {"", "tcp", "udp", "icmp"}
    && (r.port != 0 ==> r.protocol in {"tcp", "udp"} && 1 <= r.port <= 65535)
  }

  predicate ValidProfile(p: Profile) {
    IsProfileName(p.name) && p.roles != [] && ValidDuration(p.duration)
    && forall r | r in p.rules :: ValidRule(r)
  }

  predicate ValidSshProfile(p: SshProfile) {
    && IsProfileName(p.name) && p.roles != [] && p.principals != []
    && (forall s | s in p.principals :: IsPrincipalName(s))
    && (forall s | s in p.hosts :: IsHostPattern(s))
    && (forall s | s in p.extensions :: s in EXTENSIONS)
    && ValidDuration(p.duration)
  }

  // ----- the whole configuration -----

  ghost predicate Unique(names: seq<string>) {
    forall i: nat, j: nat | i < j < |names| :: names[i] != names[j]
  }

  function Names(c: Config): seq<string> {
    seq(|c.profiles|, i requires 0 <= i < |c.profiles| => c.profiles[i].name)
  }

  function SshNames(c: Config): seq<string> {
    seq(|c.sshProfiles|, i requires 0 <= i < |c.sshProfiles| => c.sshProfiles[i].name)
  }

  /** The checks made before any profile is looked at. */
  predicate ValidSettings(c: Config) {
    && (c.profiles != [] || c.sshProfiles != [])
    && (c.caCertificateFile == "" <==> c.caPrivateFile == "")
    && (c.issuesPerHour.Some? ==> c.issuesPerHour.value >= 0)
    && c.maxTrackedSessions >= 0
    && (c.configdirEnabled ==> c.configdirPath != "")
    && (c.profiles != [] ==> c.template != "")
  }

  ghost predicate Accepted(c: Config) {
    && ValidSettings(c)
    && (forall i: nat | i < |c.profiles| :: ValidProfile(c.profiles[i]))
    && Unique(Names(c))
    && (forall i: nat | i < |c.sshProfiles| :: ValidSshProfile(c.sshProfiles[i]))
    && Unique(SshNames(c))
  }

  datatype Fault =
    | BadSettings
    | BadProfile(index: nat) | DuplicateProfile(index: nat)
    | BadSshProfile(index: nat) | DuplicateSshProfile(index: nat)

  /** The settings are valid and the first i VPN profiles are, under distinct names. */
  ghost predicate SoundUpTo(c: Config, i: nat) {
    && i <= |c.profiles| && ValidSettings(c)
    && (forall j: nat | j < i :: ValidProfile(c.profiles[j]))
    && Unique(Names(c)[..i])
  }

  /** And so are all the VPN profiles and the first i SSH ones. */
  ghost predicate SshSoundUpTo(c: Config, i: nat) {
    && i <= |c.sshProfiles| && SoundUpTo(c, |c.profiles|)
    && (forall j: nat | j < i :: ValidSshProfile(c.sshProfiles[j]))
    && Unique(SshNames(c)[..i])
  }

  /** validate: the settings, then the profiles in order, each name seen once; the
      first fault is reported. */
  method Validate(c: Config) returns (fault: Option<Fault>)
    ensures fault == None <==> Accepted(c)
    ensures match fault
      case None => true
      case Some(BadSettings) => !ValidSettings(c)
      case Some(BadProfile(i)) => SoundUpTo(c, i) && i < |c.profiles| && !ValidProfile(c.profiles[i])
      case Some(DuplicateProfile(i)) =>
        SoundUpTo(c, i) && i < |c.profiles| && ValidProfile(c.profiles[i]) && Names(c)[i] in Names(c)[..i]
      case Some(BadSshProfile(i)) =>
        SshSoundUpTo(c, i) && i < |c.sshProfiles| && !ValidSshProfile(c.sshProfiles[i])
      case Some(DuplicateSshProfile(i)) =>
        SshSoundUpTo(c, i) && i < |c.sshProfiles| && ValidSshProfile(c.sshProfiles[i])
        && SshNames(c)[i] in SshNames(c)[..i]
  {
    hide ValidProfile, ValidSshProfile;
    if !ValidSettings(c) {
      return Some(BadSettings);
    }
    var seen: set<string> := {};
    for i := 0 to |c.profiles|
      invariant forall j: nat | j < i :: ValidProfile(c.profiles[j])
      invariant Unique(Names(c)[..i])
      invariant forall name :: name in seen <==> name in Names(c)[..i]
    {
      var name := c.profiles[i].name;
      if !ValidProfile(c.profiles[i]) {
        return Some(BadProfile(i));
      }
      if name in seen {
        var j :| 0 <= j < i && Names(c)[..i][j] == name;
        assert Names(c)[j] == Names(c)[i];
        return Some(DuplicateProfile(i));
      }
      seen := seen + {name};
      assert Names(c)[..i + 1] == Names(c)[..i] + [name];
    }
    assert Names(c)[..|c.profiles|] == Names(c);

    var sshSeen: set<string> := {};
    for i := 0 to |c.sshProfiles|
      invariant forall j: nat | j < i :: ValidSshProfile(c.sshProfiles[j])
      invariant Unique(SshNames(c)[..i])
      invariant forall name :: name in sshSeen <==> name in SshNames(c)[..i]
    {
      var name := c.sshProfiles[i].name;
      if !ValidSshProfile(c.sshProfiles[i]) {
        return Some(BadSshProfile(i));
      }
      if name in sshSeen {
        var j :| 0 <= j < i && SshNames(c)[..i][j] == name;
        assert SshNames(c)[j] == SshNames(c)[i];
        return Some(DuplicateSshProfile(i));
      }
      sshSeen := sshSeen + {name};
      assert SshNames(c)[..i + 1] == SshNames(c)[..i] + [name];
    }
    assert SshNames(c)[..|c.sshProfiles|] == SshNames(c);
    return None;
  }

  /** The per-user hourly cap; zero or less means unlimited. */
  function IssueLimit(c: Config): int {
    if c.issuesPerHour.None? then DEFAULT_ISSUES_PER_HOUR else c.issuesPerHour.value
  }

  // ----- lookup and access -----

  /** What a profile of either kind grants, and to whom. */
  datatype Grant = Grant(duration: Time, roles: seq<string>)

  function ProfileNamed(profiles: seq<Profile>, name: string): Option<Grant> {
    if profiles == [] then None
    else if profiles[0].name == name then Some(Grant(profiles[0].duration, profiles[0].roles))
    else ProfileNamed(profiles[1..], name)
  }

  function SshProfileNamed(profiles: seq<SshProfile>, name: string): Option<Grant> {
    if profiles == [] then None
    else if profiles[0].name == name then Some(Grant(profiles[0].duration, profiles[0].roles))
    else SshProfileNamed(profiles[1..], name)
  }

  /** AllowedFor: some role the profile names is one the caller has. */
  predicate AllowedFor(required: seq<string>, roles: seq<string>) {
    exists r | r in required :: r in roles
  }

  lemma {:induction false} LookupFinds(profiles: seq<Profile>, i: nat)
    requires i < |profiles|
    requires forall j: nat | j < |profiles| && j != i :: profiles[j].name != profiles[i].name
    ensures ProfileNamed(profiles, profiles[i].name) == Some(Grant(profiles[i].duration, profiles[i].roles))
  {
    if i > 0 {
      assert profiles[0].name != profiles[i].name;
      LookupFinds(profiles[1..], i - 1);
    }
  }

  /** In an accepted configuration a name finds the one profile that bears it. */
  lemma AcceptedLookup(c: Config, i: nat)
    requires Accepted(c) && i < |c.profiles|
    ensures var p := c.profiles[i]; ProfileNamed(c.profiles, p.name) == Some(Grant(p.duration, p.roles))
  {
    forall j: nat | j < |c.profiles| && j != i ensures c.profiles[j].name != c.profiles[i].name {
      assert Names(c)[i] == c.profiles[i].name && Names(c)[j] == c.profiles[j].name;
    }
    LookupFinds(c.profiles, i);
  }

  lemma {:induction false} SshLookupFinds(profiles: seq<SshProfile>, i: nat)
    requires i < |profiles|
    requires forall j: nat | j < |profiles| && j != i :: profiles[j].name != profiles[i].name
    ensures SshProfileNamed(profiles, profiles[i].name) == Some(Grant(profiles[i].duration, profiles[i].roles))
  {
    if i > 0 {
      assert profiles[0].name != profiles[i].name;
      SshLookupFinds(profiles[1..], i - 1);
    }
  }

  /** And the same for SSH profiles. */
  lemma SshAcceptedLookup(c: Config, i: nat)
    requires Accepted(c) && i < |c.sshProfiles|
    ensures var p := c.sshProfiles[i]; SshProfileNamed(c.sshProfiles, p.name) == Some(Grant(p.duration, p.roles))
  {
    forall j: nat | j < |c.sshProfiles| && j != i ensures c.sshProfiles[j].name != c.sshProfiles[i].name {
      assert SshNames(c)[i] == c.sshProfiles[i].name && SshNames(c)[j] == c.sshProfiles[j].name;
    }
    SshLookupFinds(c.sshProfiles, i);
  }

  lemma {:induction false} LookupBounds(profiles: seq<Profile>, name: string)
    requires forall j: nat | j < |profiles| :: ValidProfile(profiles[j])
    ensures var g := ProfileNamed(profiles, name);
            && (g.Some? <==> exists j: nat | j < |profiles| :: profiles[j].name == name)
            && (g.Some? ==> ValidDuration(g.value.duration) && g.value.roles != [])
  {
    if profiles != [] {
      LookupBounds(profiles[1..], name);
      if exists j: nat | j < |profiles| :: profiles[j].name == name {
        var j: nat :| j < |profiles| && profiles[j].name == name;
        assert j > 0 ==> profiles[1..][j - 1].name == name;
      }
    }
  }

  lemma {:induction false} SshLookupBounds(profiles: seq<SshProfile>, name: string)
    requires forall j: nat | j < |profiles| :: ValidSshProfile(profiles[j])
    ensures var g := SshProfileNamed(profiles, name);
            && (g.Some? <==> exists j: nat | j < |profiles| :: profiles[j].name == name)
            && (g.Some? ==> ValidDuration(g.value.duration) && g.value.roles != [])
  {
    if profiles != [] {
      SshLookupBounds(profiles[1..], name);
      if exists j: nat | j < |profiles| :: profiles[j].name == name {
        var j: nat :| j < |profiles| && profiles[j].name == name;
        assert j > 0 ==> profiles[1..][j - 1].name == name;
      }
    }
  }

  // ----- how long a certificate lasts -----

  /** boundedExpiry: the profile's duration, cut short where the CA's own validity
      ends; refused once the CA has lapsed. */
  function BoundedExpiry(caNotAfter: Time, now: Time, d: Time): Result<Time> {
    if now >= caNotAfter then Err("the CA has expired")
    else if now + d > TruncateToSecond(caNotAfter) then Ok(TruncateToSecond(caNotAfter))
    else Ok(now + d)
  }

  /** When a VPN certificate issued at a clock reading runs out. */
  function VpnExpiry(caNotAfter: Time, clock: Time, d: Time): Result<Time> {
    BoundedExpiry(caNotAfter, TruncateToSecond(clock), d)
  }

  /** When an SSH certificate issued at a clock reading runs out. */
  function SshExpiry(clock: Time, d: Time): Time {
    TruncateToSecond(clock) + d
  }

  /** A VPN certificate never outlives its CA or its profile's duration, gets the
      whole duration when the CA leaves room for it, and is refused exactly when
      the CA had lapsed at the second of issue. */
  lemma VpnExpiryBounds(caNotAfter: Time, clock: Time, d: Time)
    requires d > 0
    ensures var r, now := VpnExpiry(caNotAfter, clock, d), TruncateToSecond(clock);
            && (r.Ok? <==> now < caNotAfter)
            && (r.Ok? ==> now <= r.value <= caNotAfter && r.value <= clock + d)
            && (r.Ok? ==> (r.value == now + d <==> now + d <= TruncateToSecond(caNotAfter)))
  {
    var now := TruncateToSecond(clock);
    if now < caNotAfter {
      assert TruncateToSecond(caNotAfter) >= now by {
        WholeSeconds(clock, caNotAfter);
      }
    }
  }

  lemma WholeSeconds(a: Time, b: Time)
    requires TruncateToSecond(a) <= b
    ensures TruncateToSecond(a) <= TruncateToSecond(b)
  {
    assert TruncateToSecond(a) == (a / SECOND) * SECOND && TruncateToSecond(b) == (b / SECOND) * SECOND;
  }
}
