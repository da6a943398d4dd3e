/** The network-reservation state machine of the BOSH director: a binding of an
    instance and a network to an optional IP address, with an allocation type.

    Ruby's class hierarchy becomes one datatype with two variants:
    - `Existing`: observed on a running instance; its type is nil until
      `resolve_type` classifies the address, and may be overwritten freely;
    - `Desired`: requested for the target deployment; its type is fixed when it
      is built and `resolve_type` may only confirm it.
    Every transition returns the updated value instead of mutating; one that
    can raise returns a new value or an error. */
module NetworkReservation {
  import opened Wrappers

  /** An IP address in the integer encoding of `ip_to_i`. */
  type Ip = int

  /** The owning instance, by identity only. */
  type InstanceRef = nat

  /** Only the name of a network is used here, for messages. */
  datatype Network = Network(name: string)

  datatype ReservationType = Static | Dynamic

  /** The two IpUtil helpers the reservation uses, left uninterpreted:
      `toInt` is `ip_to_i` (None when the text is not an address) and
      `format` is `ip_to_netaddr(ip).ip`. */
  datatype IpCodec = IpCodec(toInt: string -> Option<Ip>, format: Ip -> string)

  datatype Error =
    | /** NetworkReservationWrongType, with what its message names. */
      WrongType(formattedIp: Option<string>, networkName: string, declared: ReservationType)
    | /** `ip_to_i` rejected the address text. */
      InvalidIp(text: string)
    | /** A method the variant does not define (Ruby's NoMethodError). */
      UndefinedMethod(name: string)

  datatype Reservation =
    | Existing(instance: InstanceRef, network: Network, ip: Option<Ip>, reserved: bool,
               resolved: Option<ReservationType>)
    | Desired(instance: InstanceRef, network: Network, ip: Option<Ip>, reserved: bool,
              declared: ReservationType)
  {
    /** The `type` reader: nil on an existing reservation until it is resolved. */
    function Type(): Option<ReservationType> {
      if Existing? then resolved else Some(declared)
    }
  }

  /** `:static.to_s` and `:dynamic.to_s`. */
  function TypeName(t: ReservationType): string {
    match t
    case Static => "static"
    case Dynamic => "dynamic"
  }

  /** `ip_to_i(ip) if ip`: no address stays nil, text is converted or rejected. */
  function ConvertIp(codec: IpCodec, text: Option<string>): (r: Result<Option<Ip>, Error>)
    ensures text.None? ==> r == Success(None)
    ensures text.Some? ==> (r.Success? <==> codec.toInt(text.value).Some?)
    ensures r.Success? && text.Some? ==> r.value == codec.toInt(text.value)
    ensures r.Failure? ==> r.error == InvalidIp(text.value)
  {
    match text
    case None => Success(None)
    case Some(t) =>
      match codec.toInt(t)
      case None => Failure(InvalidIp(t))
      case Some(i) => Success(Some(i))
  }

  // ---------------------------------------------------------------------------
  // Queries shared by both variants

  /** `reserved?`: false on construction, set only by `mark_reserved`. */
  function IsReserved(r: Reservation): (b: bool)
    ensures b <==> r.reserved
  {
    r.reserved
  }

  /** `static?`: an existing reservation resolved as static, or a desired one
      declared static. */
  function IsStatic(r: Reservation): (b: bool)
    ensures b <==> (r.Existing? && r.resolved == Some(Static)) || (r.Desired? && r.declared == Static)
  {
    r.Type() == Some(Static)
  }

  /** `dynamic?`: an existing reservation resolved as dynamic, or a desired
      one declared dynamic. */
  function IsDynamic(r: Reservation): (b: bool)
    ensures b <==> (r.Existing? && r.resolved == Some(Dynamic)) || (r.Desired? && r.declared == Dynamic)
  {
    r.Type() == Some(Dynamic)
  }

  /** `static?` and `dynamic?` exclude each other, and both are false exactly
      while the type is still nil. */
  lemma StaticDynamicExclusive(r: Reservation)
    ensures !(IsStatic(r) && IsDynamic(r))
    ensures !IsStatic(r) && !IsDynamic(r) <==> r.Existing? && r.resolved.None?
  {
    match r.Type()
    case None =>
    case Some(Static) =>
    case Some(Dynamic) =>
  }

  /** `formatted_ip`: nil exactly when there is no address. */
  function FormattedIp(codec: IpCodec, r: Reservation): (f: Option<string>)
    ensures f.None? <==> r.ip.None?
    ensures r.ip.Some? ==> f == Some(codec.format(r.ip.value))
  {
    match r.ip
    case None => None
    case Some(i) => Some(codec.format(i))
  }

  /** `mark_reserved`: sets the flag and changes nothing else. */
  function MarkReserved(r: Reservation): (r': Reservation)
    ensures IsReserved(r')
    ensures r'.(reserved := r.reserved) == r
  {
    r.(reserved := true)
  }

  // ---------------------------------------------------------------------------
  // Construction

  /** `ExistingNetworkReservation.new(instance, network, ip)`. */
  function NewExisting(codec: IpCodec, instance: InstanceRef, network: Network, ip: Option<string>)
    : (r: Result<Reservation, Error>)
    ensures r.Success? <==> ip.None? || codec.toInt(ip.value).Some?
    ensures r.Success? ==> r.value.Existing? && !IsReserved(r.value)
    ensures r.Success? ==> !IsStatic(r.value) && !IsDynamic(r.value)
    ensures r.Success? ==> r.value.instance == instance && r.value.network == network
    ensures r.Success? ==> r.value.ip.Some? == ip.Some?
    ensures r.Success? && ip.Some? ==> r.value.ip == codec.toInt(ip.value)
    ensures r.Failure? ==> r.error == InvalidIp(ip.value)
  {
    match ConvertIp(codec, ip)
    case Failure(e) => Failure(e)
    case Success(i) => Success(Existing(instance, network, i, false, None))
  }

  /** `DesiredNetworkReservation#initialize`. It never calls `super`, so the
      reserved flag is nil, which reads as false. */
  function NewDesired(codec: IpCodec, instance: InstanceRef, network: Network, ip: Option<string>,
                      t: ReservationType): (r: Result<Reservation, Error>)
    ensures r.Success? <==> ip.None? || codec.toInt(ip.value).Some?
    ensures r.Success? ==> r.value.Desired? && r.value.Type() == Some(t) && !IsReserved(r.value)
    ensures r.Success? ==> r.value.instance == instance && r.value.network == network
    ensures r.Success? ==> r.value.ip.Some? == ip.Some?
    ensures r.Success? && ip.Some? ==> r.value.ip == codec.toInt(ip.value)
    ensures r.Failure? ==> r.error == InvalidIp(ip.value)
  {
    match ConvertIp(codec, ip)
    case Failure(e) => Failure(e)
    case Success(i) => Success(Desired(instance, network, i, false, t))
  }

  /** `new_dynamic`: no address, type dynamic; it cannot fail. */
  function NewDynamic(codec: IpCodec, instance: InstanceRef, network: Network): (r: Result<Reservation, Error>)
    ensures r.Success?
    ensures IsDynamic(r.value) && !IsStatic(r.value) && r.value.Desired?
    ensures r.value.ip.None? && FormattedIp(codec, r.value).None?
    ensures !IsReserved(r.value)
    ensures r.value.instance == instance && r.value.network == network
  {
    NewDesired(codec, instance, network, None, Dynamic)
  }

  /** `new_static(ip)`: type static and the address converted by `ip_to_i`
      when one is given (a nil address is kept as nil); it fails only when
      the address text is rejected. */
  function NewStatic(codec: IpCodec, instance: InstanceRef, network: Network, ip: Option<string>)
    : (r: Result<Reservation, Error>)
    ensures r.Success? <==> ip.None? || codec.toInt(ip.value).Some?
    ensures r.Success? ==> IsStatic(r.value) && !IsDynamic(r.value) && r.value.Desired?
    ensures r.Success? ==> r.value.instance == instance && r.value.network == network
    ensures r.Success? ==> !IsReserved(r.value) && (r.value.ip.None? <==> ip.None?)
    ensures r.Success? && ip.Some? ==> r.value.ip == codec.toInt(ip.value)
    ensures r.Success? && ip.Some? ==> FormattedIp(codec, r.value) == Some(codec.format(codec.toInt(ip.value).value))
    ensures r.Failure? ==> r.error == InvalidIp(ip.value)
  {
    NewDesired(codec, instance, network, ip, Static)
  }

  /** When the codec formats back the text it parsed, a static reservation
      shows exactly the address it was built with. */
  lemma StaticFormattedIpRoundTrip(codec: IpCodec, instance: InstanceRef, network: Network, ip: string)
    requires codec.toInt(ip).Some? && codec.format(codec.toInt(ip).value) == ip
    ensures NewStatic(codec, instance, network, Some(ip)).Success?
    ensures FormattedIp(codec, NewStatic(codec, instance, network, Some(ip)).value) == Some(ip)
  {
  }

  // ---------------------------------------------------------------------------
  // Transitions

  /** `resolve_ip` (desired reservations only): replaces the address and keeps
      everything else, the type included. */
  function ResolveIp(codec: IpCodec, r: Reservation, ip: string): (res: Result<Reservation, Error>)
    requires r.Desired?
    ensures res.Success? <==> codec.toInt(ip).Some?
    ensures res.Success? ==> res.value.ip == codec.toInt(ip)
    ensures res.Success? ==> res.value.Desired? && res.value.Type() == r.Type()
    ensures res.Success? ==> res.value.reserved == r.reserved
    ensures res.Success? ==> res.value.instance == r.instance && res.value.network == r.network
    ensures res.Failure? ==> res.error == InvalidIp(ip)
  {
    match codec.toInt(ip)
    case None => Failure(InvalidIp(ip))
    case Some(i) => Success(Desired(r.instance, r.network, Some(i), r.reserved, r.declared))
  }

  /** `resolve_type`. On an existing reservation it overwrites the type and
      never fails; on a desired one it only confirms the declared type and
      raises NetworkReservationWrongType, naming the formatted address, the
      network and the declared type, when asked for another. */
  function ResolveType(codec: IpCodec, r: Reservation, t: ReservationType): (res: Result<Reservation, Error>)
    ensures r.Existing? ==> res.Success? && res.value.Existing? && res.value.Type() == Some(t)
    ensures r.Existing? ==> res.value.(resolved := r.resolved) == r
    ensures r.Desired? ==> (res.Success? <==> r.declared == t)
    ensures r.Desired? && res.Success? ==> res.value == r
    ensures res.Failure? ==> res.error == WrongType(FormattedIp(codec, r), r.network.name, r.declared)
  {
    match r
    case Existing(_, _, _, _, _) => Success(r.(resolved := Some(t)))
    case Desired(_, network, _, _, declared) =>
      if declared != t then Failure(WrongType(FormattedIp(codec, r), network.name, declared))
      else Success(r)
  }

  // ---------------------------------------------------------------------------
  // Descriptions and the error message

  /** `part` occurs in `s` starting at index `i`. */
  predicate OccursAt(s: string, part: string, i: int) {
    0 <= i <= |s| - |part| && s[i..i + |part|] == part
  }

  /** `s` begins with `part`. */
  predicate StartsWith(s: string, part: string) {
    OccursAt(s, part, 0)
  }

  /** `s` holds `part` somewhere. */
  ghost predicate Contains(s: string, part: string) {
    exists i :: OccursAt(s, part, i)
  }

  /** `desc` of both variants; Ruby interpolates a nil address as "". The
      description says which kind of reservation it is (an existing one, or
      the declared type of a desired one) and shows the formatted address. */
  function Desc(codec: IpCodec, r: Reservation): (d: string)
    ensures r.Existing? ==> StartsWith(d, "existing reservation")
    ensures r.Desired? ==> StartsWith(d, TypeName(r.declared) + " reservation with IP '")
    ensures r.ip.Some? ==> Contains(d, FormattedIp(codec, r).value)
  {
    match r
    case Existing(_, _, ip, _, _) =>
      var d := "existing reservation" + (if ip.None? then "" else " with IP '" + FormattedIp(codec, r).value + "'");
      assert OccursAt(d, "existing reservation", 0);
      assert ip.Some? ==> OccursAt(d, FormattedIp(codec, r).value, |"existing reservation with IP '"|);
      d
    case Desired(_, _, _, _, declared) =>
      var head := TypeName(declared) + " reservation with IP '";
      var d := head + FormattedIp(codec, r).GetOr("") + "'";
      assert OccursAt(d, head, 0);
      assert OccursAt(d, FormattedIp(codec, r).GetOr(""), |head|);
      d
  }

  /** An existing and a desired reservation never share a description. */
  lemma DescTellsVariantsApart(codec: IpCodec, r: Reservation, q: Reservation)
    requires r.Existing? && q.Desired?
    ensures Desc(codec, r) != Desc(codec, q)
  {
    var d := Desc(codec, r);
    var e := Desc(codec, q);
    assert d[0] == 'e';
    assert e[0] == TypeName(q.declared)[0];
  }

  /** An existing reservation's description carries the " with IP" part, and
      with it the formatted address, exactly when it has an address. */
  lemma ExistingDescMentionsIp(codec: IpCodec, r: Reservation)
    requires r.Existing?
    ensures Desc(codec, r) == "existing reservation" <==> r.ip.None?
    ensures r.ip.Some? ==> Contains(Desc(codec, r), FormattedIp(codec, r).value)
  {
  }


  /** The text of a raised error; only NetworkReservationWrongType has a
      message of its own in this core. */
  function Message(e: Error): (m: string)
    ensures e.WrongType? ==> StartsWith(m, "IP '" + e.formattedIp.GetOr("") + "' on network '")
    ensures e.WrongType? ==> Contains(m, e.networkName)
    ensures e.WrongType? ==>
              OccursAt(m, TypeName(e.declared) + " pool", |m| - |TypeName(e.declared) + " pool"|)
  {
    match e
    case WrongType(ip, name, declared) =>
      var head := "IP '" + ip.GetOr("") + "' on network '";
      var tail := TypeName(declared) + " pool";
      var m := head + name + "' does not belong to " + tail;
      assert OccursAt(m, head, 0);
      assert OccursAt(m, name, |head|);
      assert OccursAt(m, tail, |m| - |tail|);
      m
    case InvalidIp(text) => "invalid IP '" + text + "'"
    case UndefinedMethod(name) => "undefined method '" + name + "'"
  }

  /** A refused `resolve_type` names the formatted address, the network and
      the declared type in its message. */
  lemma WrongTypeMessageNamesReservation(codec: IpCodec, r: Reservation, t: ReservationType)
    requires r.Desired? && r.declared != t
    ensures ResolveType(codec, r, t).Failure?
    ensures var m := Message(ResolveType(codec, r, t).error);
            && Contains(m, FormattedIp(codec, r).GetOr(""))
            && Contains(m, r.network.name)
            && Contains(m, TypeName(r.declared))
  {
    var m := Message(ResolveType(codec, r, t).error);
    var ip := FormattedIp(codec, r).GetOr("");
    var name := r.network.name;
    var p1 := "IP '";
    var p2 := p1 + ip + "' on network '";
    var p3 := p2 + name + "' does not belong to ";
    assert m == p3 + TypeName(r.declared) + " pool";
    assert OccursAt(m, ip, |p1|);
    assert OccursAt(m, name, |p2|);
    assert OccursAt(m, TypeName(r.declared), |p3|);
  }

  // ---------------------------------------------------------------------------
  // Sequences of operations

  datatype Op = MarkReservedOp | ResolveTypeOp(t: ReservationType) | ResolveIpOp(ip: string)

  /** One public operation; `resolve_ip` is undefined on an existing reservation. */
  function Apply(codec: IpCodec, r: Reservation, op: Op): Result<Reservation, Error> {
    match op
    case MarkReservedOp => Success(MarkReserved(r))
    case ResolveTypeOp(t) => ResolveType(codec, r, t)
    case ResolveIpOp(ip) => if r.Desired? then ResolveIp(codec, r, ip) else Failure(UndefinedMethod("resolve_ip"))
  }

  /** Operations in order; the first raised error ends the run. */
  function Run(codec: IpCodec, r: Reservation, ops: seq<Op>): Result<Reservation, Error>
    decreases |ops|
  {
    if |ops| == 0 then Success(r)
    else
      match Apply(codec, r, ops[0])
      case Failure(e) => Failure(e)
      case Success(r') => Run(codec, r', ops[1..])
  }

  /** The reserved flag is set exactly by `mark_reserved` and never cleared:
      after any successful run it is true if and only if it was true before or
      the run marked the reservation. */
  lemma {:induction false} RunReservedMonotone(codec: IpCodec, r: Reservation, ops: seq<Op>)
    requires Run(codec, r, ops).Success?
    ensures IsReserved(Run(codec, r, ops).value) <==> IsReserved(r) || MarkReservedOp in ops
    decreases |ops|
  {
    if |ops| > 0 {
      var r' := Apply(codec, r, ops[0]).value;
      RunReservedMonotone(codec, r', ops[1..]);
      assert ops == [ops[0]] + ops[1..];
    }
  }

  /** A desired reservation keeps its variant, declared type, instance and
      network through any successful run: its type can be confirmed, never
      changed. */
  lemma {:induction false} RunKeepsDesiredType(codec: IpCodec, r: Reservation, ops: seq<Op>)
    requires r.Desired? && Run(codec, r, ops).Success?
    ensures Run(codec, r, ops).value.Desired?
    ensures Run(codec, r, ops).value.declared == r.declared
    ensures Run(codec, r, ops).value.instance == r.instance
    ensures Run(codec, r, ops).value.network == r.network
    decreases |ops|
  {
    if |ops| > 0 {
      RunKeepsDesiredType(codec, Apply(codec, r, ops[0]).value, ops[1..]);
    }
  }

  /** A run on a desired reservation fails with NetworkReservationWrongType
      as soon as it asks for a type other than the declared one. */
  lemma {:induction false} RunRejectsOtherType(codec: IpCodec, r: Reservation, ops: seq<Op>)
    requires r.Desired?
    requires exists k | 0 <= k < |ops| :: ops[k] == ResolveTypeOp(if r.declared == Static then Dynamic else Static)
    ensures Run(codec, r, ops).Failure?
    decreases |ops|
  {
    var other := if r.declared == Static then Dynamic else Static;
    if ops[0] != ResolveTypeOp(other) {
      match Apply(codec, r, ops[0])
      case Failure(_) =>
      case Success(r') =>
        RunKeepsDesiredType(codec, r, [ops[0]]);
        var k :| 0 <= k < |ops| && ops[k] == ResolveTypeOp(other);
        assert ops[1..][k - 1] == ops[k];
        RunRejectsOtherType(codec, r', ops[1..]);
    }
  }

  /** An existing reservation accepts every type change: a run of
      `resolve_type` calls never fails and leaves the last type asked for. */
  lemma {:induction false} ExistingTypeIsLastResolved(codec: IpCodec, r: Reservation, ts: seq<ReservationType>)
    requires r.Existing? && |ts| > 0
    ensures var res := Run(codec, r, seq(|ts|, k requires 0 <= k < |ts| => ResolveTypeOp(ts[k])));
            res.Success? && res.value.Existing? && res.value.Type() == Some(ts[|ts| - 1])
            && res.value.ip == r.ip && res.value.reserved == r.reserved
    decreases |ts|
  {
    var ops := seq(|ts|, k requires 0 <= k < |ts| => ResolveTypeOp(ts[k]));
    var r' := r.(resolved := Some(ts[0]));
    assert Apply(codec, r, ops[0]) == Success(r');
    if |ts| > 1 {
      var tail := seq(|ts| - 1, k requires 0 <= k < |ts| - 1 => ResolveTypeOp(ts[1..][k]));
      assert ops[1..] == tail;
      ExistingTypeIsLastResolved(codec, r', ts[1..]);
    }
  }
}
