/**
 * The SASL mechanism contract: the seven priority levels, the mechanism kinds
 * the client knows, how mechanisms are ordered, and the per-instance
 * credential slots.
 *
 * The concrete PLAIN, ANONYMOUS and EXTERNAL implementations are not part of
 * this model, so what each kind reports as its priority and whether it is
 * applicable to given credentials are parameters (`Capabilities`).
 */
module SaslMechanisms {
  import opened Wrappers

  /** PRIORITY: relative preference levels, lowest first. */
  datatype Priority = Lowest | Lower | Low | Medium | High | Higher | Highest {

    /** getValue(): the value the level is declared with, which is its place in declaration order. */
    function Value(): (v: nat)
      ensures v < |Levels| && Levels[v] == this
    {
      match this
      case Lowest => 0
      case Lower => 1
      case Low => 2
      case Medium => 3
      case High => 4
      case Higher => 5
      case Highest => 6
    }
  }

  /** The levels in declaration order. */
  const Levels: seq<Priority> := [Lowest, Lower, Low, Medium, High, Higher, Highest]

  /** The level declared with value `v`, if any. */
  function FromValue(v: int): (r: Option<Priority>)
    ensures r.Some? <==> 0 <= v < 7
    ensures r.Some? ==> r.value.Value() == v
  {
    if 0 <= v < |Levels| then
      assert Levels[v].Value() == v by { LevelValues(); }
      Some(Levels[v])
    else None
  }

  /** There are exactly seven levels, each valued by its place in declaration order. */
  lemma LevelValues()
    ensures |Levels| == 7
    ensures forall i :: 0 <= i < |Levels| ==> Levels[i].Value() == i
    ensures forall p: Priority :: p in Levels
  {
    forall p: Priority
      ensures p in Levels
    {
      assert Levels[p.Value()] == p;
    }
  }

  /** Values strictly increase in declaration order, so distinct levels have distinct values. */
  lemma ValuesIncrease(i: int, j: int)
    requires 0 <= i < j < |Levels|
    ensures Levels[i].Value() < Levels[j].Value()
  {
    LevelValues();
  }

  lemma FromValueOfValue(p: Priority)
    ensures FromValue(p.Value()) == Some(p)
  {
  }

  /** The mechanisms the client can instantiate. */
  datatype Mechanism = Plain | Anonymous | External {

    /** getName(): the well-known SASL name. */
    function Name(): (n: string)
      ensures n != []
    {
      match this
      case Plain => "PLAIN"
      case Anonymous => "ANONYMOUS"
      case External => "EXTERNAL"
    }
  }

  /** Distinct mechanisms have distinct names. */
  lemma NameInjective(a: Mechanism, b: Mechanism)
    requires a.Name() == b.Name()
    ensures a == b
  {
  }

  /** A local identity taken from the TLS session; the model sees its name, not the session it comes from. */
  datatype Principal = Principal(name: string)

  /** The credentials a mechanism may use; each of them may be absent (null). */
  datatype Credentials = Credentials(username: Option<string>, password: Option<string>,
                                     localPrincipal: Option<Principal>)

  /**
   * What the concrete mechanisms report: the priority of each kind, and
   * whether a kind can proceed with given credentials. Both are total,
   * side-effect free functions.
   */
  datatype Capabilities = Capabilities(priority: Mechanism -> Priority,
                                       applicable: (Mechanism, Credentials) -> bool)

  /** getPriority(): the mechanism's priority as an int. */
  function GetPriority(caps: Capabilities, m: Mechanism): (p: int)
    ensures 0 <= p < 7
    ensures FromValue(p) == Some(caps.priority(m))
  {
    caps.priority(m).Value()
  }

  /** isApplicable(username, password, localPrincipal). */
  function IsApplicable(caps: Capabilities, m: Mechanism, creds: Credentials): bool
  {
    caps.applicable(m, creds)
  }

  /** compareTo: mechanisms are ordered by priority alone. */
  function CompareTo(caps: Capabilities, a: Mechanism, b: Mechanism): (c: int)
    ensures c < 0 <==> GetPriority(caps, a) < GetPriority(caps, b)
    ensures c == 0 <==> GetPriority(caps, a) == GetPriority(caps, b)
    ensures c > 0 <==> GetPriority(caps, a) > GetPriority(caps, b)
  {
    var pa, pb := GetPriority(caps, a), GetPriority(caps, b);
    if pa < pb then -1 else if pa == pb then 0 else 1
  }

  /** compareTo is a total preorder: antisymmetric in sign, transitive, and total. */
  lemma CompareToIsTotalPreorder(caps: Capabilities, a: Mechanism, b: Mechanism, c: Mechanism)
    ensures CompareTo(caps, a, a) == 0
    ensures CompareTo(caps, a, b) <= 0 || CompareTo(caps, b, a) <= 0
    ensures CompareTo(caps, a, b) < 0 <==> CompareTo(caps, b, a) > 0
    ensures CompareTo(caps, a, b) <= 0 && CompareTo(caps, b, c) <= 0 ==> CompareTo(caps, a, c) <= 0
  {
  }

  /** A mechanism instance with its own username and password slots. */
  class SaslMechanism {
    const mechanism: Mechanism
    var username: Option<string>
    var password: Option<string>

    /** createMechanism(): a fresh instance with empty credential slots. */
    constructor (mechanism: Mechanism)
      ensures this.mechanism == mechanism && username == None && password == None
    {
      this.mechanism := mechanism;
      username := None;
      password := None;
    }

    /** setUsername(u): stores `u`, leaves the password alone, and returns this mechanism. */
    method SetUsername(u: Option<string>) returns (self: SaslMechanism)
      modifies this`username
      ensures username == u && password == old(password) && self == this
    {
      username := u;
      self := this;
    }

    /** getUsername(). */
    method GetUsername() returns (u: Option<string>)
      ensures u == username
    {
      u := username;
    }

    /** setPassword(p): stores `p`, leaves the username alone, and returns this mechanism. */
    method SetPassword(p: Option<string>) returns (self: SaslMechanism)
      modifies this`password
      ensures password == p && username == old(username) && self == this
    {
      password := p;
      self := this;
    }

    /** getPassword(). */
    method GetPassword() returns (p: Option<string>)
      ensures p == password
    {
      p := password;
    }
  }

  /** Setting the username and then the password: each getter returns what was set. */
  method SetCredentials(m: Mechanism, u: Option<string>, p: Option<string>)
    returns (gotUsername: Option<string>, gotPassword: Option<string>, chained: bool)
    ensures gotUsername == u && gotPassword == p && chained
  {
    var mech := new SaslMechanism(m);
    var afterUser := mech.SetUsername(u);
    var afterPassword := afterUser.SetPassword(p);
    gotUsername := mech.GetUsername();
    gotPassword := mech.GetPassword();
    chained := afterUser == mech && afterPassword == mech;
  }
}
