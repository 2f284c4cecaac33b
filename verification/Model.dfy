/** The records shared by server and client. */
module Model {
  /** A search target as the store hands it out; `title` is the target's label. */
  datatype Target = Target(
    id: string, typ: string, pattern: string, title: string, active: bool,
    caseModes: seq<string>, matchScope: string, createdAt: string)

  /** A pattern sent to clients. */
  datatype CompiledPattern = CompiledPattern(pattern: string, matchFingerprint: bool, matchAuthorizedKey: bool)

  /** The two texts of a key that patterns are tested against. */
  datatype KeyText = KeyText(fingerprint: string, authorized: string)

  datatype Side = Fingerprint | AuthorizedKey

  function SideText(k: KeyText, side: Side): string {
    match side
    case Fingerprint => k.fingerprint
    case AuthorizedKey => k.authorized
  }

  function PatternFlag(p: CompiledPattern, side: Side): bool {
    match side
    case Fingerprint => p.matchFingerprint
    case AuthorizedKey => p.matchAuthorizedKey
  }

  /** normalizeScope: anything but the two one-sided scopes means both sides. */
  function NormalizeScope(scope: string): (r: string)
    ensures r == "fingerprint" || r == "pubkey" || r == "both"
  {
    if scope == "fingerprint" || scope == "pubkey" then scope else "both"
  }

  predicate ScopeCovers(scope: string, side: Side) {
    match side
    case Fingerprint => scope == "fingerprint" || scope == "both"
    case AuthorizedKey => scope == "pubkey" || scope == "both"
  }

  /** A target is searched on a side unless its scope names only the other side. */
  predicate SearchedOn(t: Target, side: Side) {
    match side
    case Fingerprint => t.matchScope != "pubkey"
    case AuthorizedKey => t.matchScope != "fingerprint"
  }

  /** Normalising and then reading the scope gives just that. */
  lemma ScopeMeaning(t: Target, side: Side)
    ensures ScopeCovers(NormalizeScope(t.matchScope), side) <==> SearchedOn(t, side)
  {
    assert |"fingerprint"| == 11 && |"pubkey"| == 6 && |"both"| == 4;
  }

  /** The modes a target is searched under; none given means case-insensitive. */
  function EffectiveModes(t: Target): (modes: seq<string>)
    ensures modes != []
  {
    if t.caseModes == [] then ["insensitive"] else t.caseModes
  }

  /** A reported match; private key material is carried along untouched and not modelled. */
  datatype Match = Match(
    id: string, targetId: string, clientId: string, timestamp: string, hostname: string, seekerId: int,
    matchString: string, matchedAuthorizedKey: bool, matchedFingerprint: bool, key: KeyText)

  /** The client says the key matched on `side`. */
  function Reported(m: Match, side: Side): bool {
    match side
    case Fingerprint => m.matchedFingerprint
    case AuthorizedKey => m.matchedAuthorizedKey
  }
}
