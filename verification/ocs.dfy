/** The online charging server's Diameter handler: a router on the command
    name that appends a fixed list of AVPs to the prepared answer and hands the
    answer back through the callback. AVP names, numeric codes and enumerated
    values stay unresolved: the Diameter library that resolves and encodes them
    is not part of this model. */
module Ocs {
  import opened Wrappers

  /** The dictionary names of the AVPs the handler uses, as the Diameter
      library knows them (`Result-Code`, `Origin-Host`, ...). */
  datatype AvpName =
    | ResultCode | OriginHost | OriginRealm | HostIpAddress
    | VendorId | ProductName | FirmwareRevision | InbandSecurityId
    | SupportedVendorId | AuthApplicationId | VendorSpecificApplicationId | CcRequestType
    | CcRequestNumber | MultipleServicesCreditControl | GrantedServiceUnit | RequestedServiceUnit
    | CcTime | CcMoney | UnitValue | ValueDigits
    | Exponent | CurrencyCode | CcTotalOctets | CcInputOctets
    | CcOutputOctets

  /** How an AVP is named in the answer body: by dictionary name or by code. */
  datatype AvpId = Name(name: AvpName) | Code(code: int)

  /** An AVP value: a string (a UTF8String, an address or an enumerated value
      given by name), an integer, or a grouped AVP. */
  datatype Value = Text(text: string) | Number(number: int) | Group(avps: seq<Avp>)

  /** One `[id, value]` entry of an answer body. */
  datatype Avp = Avp(id: AvpId, value: Value)

  /** What the handler leaves behind: the answer body, and the bodies of the
      answers passed to `event.callback`, one per call. */
  datatype Handled = Handled(body: seq<Avp>, sent: seq<seq<Avp>>)

  const CapabilitiesExchange: string := "Capabilities-Exchange"
  const CreditControl: string := "Credit-Control"

  /** The 3GPP vendor identifier. */
  const Vendor3gpp: int := 10415
  /** The Gy (online charging) application identifier. */
  const GyApplication: int := 16777238
  /** DIAMETER_SUCCESS as a number (section 7.1.2 of RFC 6733). */
  const DiameterSuccess: int := 2001
  /** The AVP code of Origin-Host (section 6.3 of RFC 6733). */
  const OriginHostCode: int := 264

  const Realm: string := "epc.mnc001.mcc001.3gppnetwork.org"

  // ---------------------------------------------------------------- lookup

  /** The value of the first AVP named `id`, if any. */
  function Find(avps: seq<Avp>, id: AvpId): Option<Value>
  {
    if |avps| == 0 then None
    else if avps[0].id == id then Some(avps[0].value)
    else Find(avps[1..], id)
  }

  /** A lookup succeeds exactly when some AVP carries the name, and then yields
      the value of the first such AVP. */
  lemma {:induction false} FindSpec(avps: seq<Avp>, id: AvpId)
    ensures Find(avps, id).Some? <==> exists i :: 0 <= i < |avps| && avps[i].id == id
    ensures Find(avps, id).Some? ==>
              exists i :: 0 <= i < |avps| && avps[i] == Avp(id, Find(avps, id).value)
                          && forall j :: 0 <= j < i ==> avps[j].id != id
  {
    if |avps| > 0 && avps[0].id != id {
      FindSpec(avps[1..], id);
      assert forall i :: 1 <= i < |avps| ==> avps[i] == avps[1..][i - 1];
      if Find(avps, id).Some? {
        var i :| 0 <= i < |avps[1..]| && avps[1..][i] == Avp(id, Find(avps, id).value)
                 && forall j :: 0 <= j < i ==> avps[1..][j].id != id;
        assert avps[i + 1] == Avp(id, Find(avps, id).value);
        assert forall j :: 1 <= j < i + 1 ==> avps[j] == avps[1..][j - 1];
      }
    } else if |avps| > 0 {
      assert avps[0] == Avp(id, Find(avps, id).value);
    }
  }

  /** How many AVPs are named `id`. */
  function Count(avps: seq<Avp>, id: AvpId): (r: nat)
    ensures r <= |avps|
    ensures r == 0 <==> Find(avps, id).None?
  {
    if |avps| == 0 then 0
    else (if avps[0].id == id then 1 else 0) + Count(avps[1..], id)
  }

  /** Counting over two lists adds up. */
  lemma {:induction false} CountAppend(a: seq<Avp>, b: seq<Avp>, id: AvpId)
    ensures Count(a + b, id) == Count(a, id) + Count(b, id)
  {
    if |a| == 0 {
      assert a + b == b;
    } else {
      assert (a + b)[1..] == a[1..] + b;
      CountAppend(a[1..], b, id);
    }
  }

  /** Looking up in two lists finds the first list's AVP when it has one, and
      the second list's otherwise. */
  lemma {:induction false} FindAppend(a: seq<Avp>, b: seq<Avp>, id: AvpId)
    ensures Find(a + b, id) == if Find(a, id).Some? then Find(a, id) else Find(b, id)
  {
    if |a| == 0 {
      assert a + b == b;
    } else if a[0].id != id {
      assert (a + b)[1..] == a[1..] + b;
      FindAppend(a[1..], b, id);
    }
  }

  /** No AVP of the list carries the name. */
  predicate Lacks(avps: seq<Avp>, id: AvpId) {
    forall i :: 0 <= i < |avps| ==> avps[i].id != id
  }

  /** A lookup for a name no AVP carries finds nothing. */
  lemma FindNone(avps: seq<Avp>, id: AvpId)
    requires Lacks(avps, id)
    ensures Find(avps, id).None?
  {
    FindSpec(avps, id);
  }

  /** A lookup finds the first AVP of its name. */
  lemma FindFirst(before: seq<Avp>, a: Avp, after: seq<Avp>)
    requires Lacks(before, a.id)
    ensures Find(before + [a] + after, a.id) == Some(a.value)
  {
    FindNone(before, a.id);
    assert before + [a] + after == before + ([a] + after);
    FindAppend(before, [a] + after, a.id);
  }

  /** An AVP with no namesake before or after it is counted once. */
  lemma CountOnly(before: seq<Avp>, a: Avp, after: seq<Avp>)
    requires Lacks(before, a.id) && Lacks(after, a.id)
    ensures Count(before + [a] + after, a.id) == 1
  {
    CountAppend(before, [a], a.id);
    CountAppend(before + [a], after, a.id);
    FindNone(before, a.id);
    FindNone(after, a.id);
  }

  /** The members of a grouped AVP, or nothing for a plain value. */
  function Members(v: Option<Value>): (r: seq<Avp>)
    ensures v.Some? && v.value.Group? ==> r == v.value.avps
  {
    if v.Some? && v.value.Group? then v.value.avps else []
  }

  /** A Unit-Value group (section 8.8 of RFC 4006) as its pair of integers, the
      amount being `digits * 10^exponent`: both members must be present and
      integral. */
  function UnitValueOf(avps: seq<Avp>): (r: Option<(int, int)>)
    ensures r.Some? ==> Avp(Name(ValueDigits), Number(r.value.0)) in avps
                        && Avp(Name(Exponent), Number(r.value.1)) in avps
    ensures (forall a | a in avps :: !a.value.Number?) ==> r.None?
    ensures var digits, exponent := Find(avps, Name(ValueDigits)), Find(avps, Name(Exponent));
            r.Some? <==> digits.Some? && digits.value.Number? && exponent.Some? && exponent.value.Number?
    ensures r.Some? ==> r.value == (Find(avps, Name(ValueDigits)).value.number, Find(avps, Name(Exponent)).value.number)
  {
    FindSpec(avps, Name(ValueDigits));
    FindSpec(avps, Name(Exponent));
    match (Find(avps, Name(ValueDigits)), Find(avps, Name(Exponent)))
    case (Some(Number(digits)), Some(Number(exponent))) =>
      var i :| 0 <= i < |avps| && avps[i] == Avp(Name(ValueDigits), Number(digits));
      assert avps[i] in avps;
      Some((digits, exponent))
    case _ => None
  }

  // ---------------------------------------------------------------- answers

  /** The plain AVPs of a Capabilities-Exchange-Answer, everything before its
      Vendor-Specific-Application-Id group. */
  function CeaPlainAvps(): (r: seq<Avp>)
    ensures |r| > 0 && r[0] == Avp(Name(ResultCode), Text("DIAMETER_SUCCESS"))
    ensures Count(r, Name(OriginHost)) == 1
    ensures Find(r, Name(VendorId)) == Some(Number(Vendor3gpp))
    ensures Find(r, Name(VendorSpecificApplicationId)).None?
  {
    var before := [Avp(Name(ResultCode), Text("DIAMETER_SUCCESS"))];
    var host := Avp(Name(OriginHost), Text("ocs.epc.mnc001.mcc001.3gppnetwork.org"));
    var mid := [Avp(Name(OriginRealm), Text(Realm)), Avp(Name(HostIpAddress), Text("127.0.0.1"))];
    var vendor := Avp(Name(VendorId), Number(Vendor3gpp));
    var after := [
      Avp(Name(ProductName), Text("node-diameter")),
      Avp(Name(FirmwareRevision), Number(10201)),
      Avp(Name(InbandSecurityId), Text("NO_INBAND_SECURITY")),
      Avp(Name(SupportedVendorId), Number(Vendor3gpp)),
      Avp(Name(AuthApplicationId), Text("Diameter Credit Control Application"))];
    var r := before + [host] + mid + [vendor] + after;
    assert r == before + [host] + (mid + [vendor] + after);
    CountOnly(before, host, mid + [vendor] + after);
    FindFirst(before + [host] + mid, vendor, after);
    FindNone(r, Name(VendorSpecificApplicationId));
    r
  }

  /** The AVPs a Capabilities-Exchange-Answer gets (section 5.3.2 of RFC 6733). */
  function CeaAvps(): (r: seq<Avp>)
    ensures |r| > 0 && r[0] == Avp(Name(ResultCode), Text("DIAMETER_SUCCESS"))
    ensures Count(r, Name(OriginHost)) == 1
    ensures Find(r, Name(VendorId)) == Some(Number(Vendor3gpp))
    ensures Find(Members(Find(r, Name(VendorSpecificApplicationId))), Name(VendorId)) == Some(Number(Vendor3gpp))
    ensures Find(Members(Find(r, Name(VendorSpecificApplicationId))), Name(AuthApplicationId))
            == Some(Number(GyApplication))
  {
    var plain := CeaPlainAvps();
    var vsai := Avp(Name(VendorSpecificApplicationId), Group([
                      Avp(Name(VendorId), Number(Vendor3gpp)),
                      Avp(Name(AuthApplicationId), Number(GyApplication))]));
    CountAppend(plain, [vsai], Name(OriginHost));
    assert Count([vsai], Name(OriginHost)) == 0;
    FindAppend(plain, [vsai], Name(VendorId));
    FindAppend(plain, [vsai], vsai.id);
    plain + [vsai]
  }

  /** One service unit as the answer grants or requests it: 123 seconds, 123
      octets each way and in total, and money worth 123 * 10^1 in currency 1. */
  function ServiceUnit(): (r: seq<Avp>)
    ensures var money := Members(Find(r, Name(CcMoney)));
            UnitValueOf(Members(Find(money, Name(UnitValue)))) == Some((123, 1))
            && Find(money, Name(CurrencyCode)) == Some(Number(1))
  {
    var money := Avp(Name(CcMoney), Group([
                       Avp(Name(UnitValue), Group([
                         Avp(Name(ValueDigits), Number(123)),
                         Avp(Name(Exponent), Number(1))])),
                       Avp(Name(CurrencyCode), Number(1))]));
    var time := [Avp(Name(CcTime), Number(123))];
    var octets := [
      Avp(Name(CcTotalOctets), Number(123)),
      Avp(Name(CcInputOctets), Number(123)),
      Avp(Name(CcOutputOctets), Number(123))];
    var r := time + [money] + octets;
    FindFirst(time, money, octets);
    r
  }

  /** The AVPs a Credit-Control-Answer gets (section 3.2 of RFC 4006). The
      result code is given as a number and Origin-Host by its AVP code. */
  function CcaAvps(): (r: seq<Avp>)
    ensures |r| > 0 && r[0] == Avp(Name(ResultCode), Number(DiameterSuccess))
    ensures Find(r, Code(OriginHostCode)) == Some(Text("test.com"))
    ensures Find(r, Name(OriginHost)).None?
    ensures var mscc := Members(Find(r, Name(MultipleServicesCreditControl)));
            |mscc| == 2
            && mscc[0] == Avp(Name(GrantedServiceUnit), Group(ServiceUnit()))
            && mscc[1] == Avp(Name(RequestedServiceUnit), Group(ServiceUnit()))
  {
    var mscc := Avp(Name(MultipleServicesCreditControl), Group([
                      Avp(Name(GrantedServiceUnit), Group(ServiceUnit())),
                      Avp(Name(RequestedServiceUnit), Group(ServiceUnit()))]));
    var front := [
      Avp(Name(ResultCode), Number(DiameterSuccess)),
      Avp(Code(OriginHostCode), Text("test.com")),
      Avp(Name(OriginRealm), Text(Realm)),
      Avp(Name(AuthApplicationId), Text("Diameter Credit Control Application")),
      Avp(Name(CcRequestType), Text("INITIAL_REQUEST")),
      Avp(Name(CcRequestNumber), Number(0))];
    var r := front + [mscc];
    FindAppend(front, [mscc], Code(OriginHostCode));
    FindNone(front, Name(OriginHost));
    FindAppend(front, [mscc], Name(OriginHost));
    FindNone(front, mscc.id);
    FindAppend(front, [mscc], mscc.id);
    r
  }

  /** The commands the handler answers. */
  predicate Answered(command: string) {
    command == CapabilitiesExchange || command == CreditControl
  }

  /** The `diameterMessage` handler for a message with the given command and
      the answer body the library prepared. */
  function OnDiameterMessage(command: string, body: seq<Avp>): (r: Handled)
    ensures |r.body| >= |body| && r.body[..|body|] == body
    ensures Answered(command) <==> r.sent == [r.body]
    ensures !Answered(command) <==> r.sent == []
    ensures !Answered(command) ==> r.body == body
    ensures command == CapabilitiesExchange ==> r.body == body + CeaAvps()
    ensures command == CreditControl ==> r.body == body + CcaAvps()
  {
    if command == CapabilitiesExchange then
      var answer := body + CeaAvps();
      Handled(answer, [answer])
    else if command == CreditControl then
      var answer := body + CcaAvps();
      Handled(answer, [answer])
    else
      Handled(body, [])
  }

  // ---------------------------------------------------------------- properties

  /** A Capabilities-Exchange answer adds exactly one Origin-Host to the body;
      its first Result-Code is DIAMETER_SUCCESS, its Vendor-Id 10415 and its
      Vendor-Specific-Application-Id names the Gy application, each unless the
      prepared body already had such an AVP. */
  lemma CeaAnswer(body: seq<Avp>)
    ensures var r := OnDiameterMessage(CapabilitiesExchange, body);
            Count(r.body, Name(OriginHost)) == Count(body, Name(OriginHost)) + 1
            && (Find(body, Name(ResultCode)).None?
                ==> Find(r.body, Name(ResultCode)) == Some(Text("DIAMETER_SUCCESS")))
            && (Find(body, Name(VendorId)).None? ==> Find(r.body, Name(VendorId)) == Some(Number(Vendor3gpp)))
            && (Find(body, Name(VendorSpecificApplicationId)).None?
                ==> var vsai := Members(Find(r.body, Name(VendorSpecificApplicationId)));
                    Find(vsai, Name(VendorId)) == Some(Number(Vendor3gpp))
                    && Find(vsai, Name(AuthApplicationId)) == Some(Number(GyApplication)))
  {
    CountAppend(body, CeaAvps(), Name(OriginHost));
    FindAppend(body, CeaAvps(), Name(ResultCode));
    FindAppend(body, CeaAvps(), Name(VendorId));
    FindAppend(body, CeaAvps(), Name(VendorSpecificApplicationId));
  }

  /** A Credit-Control answer carries the Origin-Host AVP only under its code,
      so a lookup by name sees only what the prepared body had; the granted
      unit is found when the prepared body has no credit control of its own. */
  lemma CcaAnswer(body: seq<Avp>)
    ensures var r := OnDiameterMessage(CreditControl, body);
            Find(r.body, Name(OriginHost)) == Find(body, Name(OriginHost))
            && Count(r.body, Code(OriginHostCode)) == Count(body, Code(OriginHostCode)) + 1
            && (Find(body, Name(MultipleServicesCreditControl)).None?
                ==> Find(Members(Find(r.body, Name(MultipleServicesCreditControl))), Name(GrantedServiceUnit))
                    == Some(Group(ServiceUnit())))
  {
    FindAppend(body, CcaAvps(), Name(OriginHost));
    CountAppend(body, CcaAvps(), Code(OriginHostCode));
    FindAppend(body, CcaAvps(), Name(MultipleServicesCreditControl));
  }
}
