/**
  Attributing trace resources to services.  A payload is a list of resource
  spans; resources of the eBPF sidecar take the service their process or peer
  address resolves to, or are dropped, and the others take the connection's name.
  The kept list shares the array of the list being read.
 */
module Attribution {
  import opened Options

  /** Only text values matter; every other value reads as the empty string. */
  datatype Value = Text(text: string) | Other(id: int)

  datatype KeyValue = KeyValue(key: string, value: Value)

  const SERVICE_NAME := "service.name"
  const SOURCE := "everyup.source"
  const EBPF := "ebpf"
  const INSTANCE := "service.instance.id"
  const ADDRESS := "server.address"

  function StringOf(v: Value): string {
    if v.Text? then v.text else ""
  }

  function ResourceAttr(attributes: seq<KeyValue>, key: string): string {
    if attributes == [] then ""
    else if attributes[0].key == key then StringOf(attributes[0].value)
    else ResourceAttr(attributes[1..], key)
  }

  /** The first attribute of that name is the one at i, and carries this text. */
  ghost predicate ReadsAt(attributes: seq<KeyValue>, key: string, text: string, i: int) {
    0 <= i < |attributes| && attributes[i] == KeyValue(key, Text(text)) &&
    forall j :: 0 <= j < i ==> attributes[j].key != key
  }

  ghost predicate Reads(attributes: seq<KeyValue>, key: string, text: string) {
    exists i :: ReadsAt(attributes, key, text, i)
  }

  lemma {:induction false} ResourceAttrReads(attributes: seq<KeyValue>, key: string, text: string)
    requires text != ""
    ensures ResourceAttr(attributes, key) == text <==> Reads(attributes, key, text)
  {
    if attributes == [] {
      assert !Reads(attributes, key, text);
    } else if attributes[0].key == key {
      assert ResourceAttr(attributes, key) == text ==> ReadsAt(attributes, key, text, 0);
    } else {
      ResourceAttrReads(attributes[1..], key, text);
      if i :| ReadsAt(attributes, key, text, i) {
        assert ReadsAt(attributes[1..], key, text, i - 1);
      }
      if i :| ReadsAt(attributes[1..], key, text, i) {
        assert forall j :: 0 < j < i + 1 ==> attributes[j] == attributes[1..][j - 1];
        assert ReadsAt(attributes, key, text, i + 1);
      }
    }
  }

  // ----- the process id of an instance id -----

  function LastColon(s: string): (i: int)
    ensures -1 <= i < |s|
  {
    if s == [] then -1 else if s[|s| - 1] == ':' then |s| - 1 else LastColon(s[..|s| - 1])
  }

  predicate IsDigit(c: char) {
    '0' <= c <= '9'
  }

  predicate AllDigits(s: string) {
    forall i :: 0 <= i < |s| ==> IsDigit(s[i])
  }

  function Value10(s: string): int
    requires AllDigits(s)
  {
    if s == [] then 0 else Value10(s[..|s| - 1]) * 10 + (s[|s| - 1] as int - '0' as int)
  }

  const MAX_INT := 0x7FFF_FFFF_FFFF_FFFF

  /** strconv.Atoi: an optional sign and decimal digits, within 64 bits. */
  function Atoi(s: string): Option<int> {
    var signed := s != [] && (s[0] == '-' || s[0] == '+');
    var digits := if signed then s[1..] else s;
    if digits == [] || !AllDigits(digits) then None
    else
      var n := if signed && s[0] == '-' then -Value10(digits) else Value10(digits);
      if -MAX_INT - 1 <= n <= MAX_INT then Some(n) else None
  }

  /** The process id of an instance id, or 0. */
  function InstancePID(instanceID: string): int {
    var idx := LastColon(instanceID);
    if idx < 0 || idx == |instanceID| - 1 then 0
    else
      var pid := Atoi(instanceID[idx + 1..]);
      if pid == None then 0 else pid.value
  }

  function Decimal(n: nat): string {
    if n < 10 then [(n + '0' as int) as char] else Decimal(n / 10) + [(n % 10 + '0' as int) as char]
  }

  lemma {:induction false} DecimalRoundTrip(n: nat)
    ensures Decimal(n) != [] && AllDigits(Decimal(n))
    ensures Value10(Decimal(n)) == n
  {
    if 10 <= n {
      DecimalRoundTrip(n / 10);
      assert Decimal(n)[..|Decimal(n)| - 1] == Decimal(n / 10);
    }
  }

  lemma {:induction false} LastColonBefore(host: string, id: string)
    requires ':' !in id
    ensures LastColon(host + ":" + id) == |host|
  {
    var s := host + ":" + id;
    if id != [] {
      assert id[|id| - 1] != ':';
      LastColonBefore(host, id[..|id| - 1]);
      assert s[..|s| - 1] == host + ":" + id[..|id| - 1];
    }
  }

  lemma {:induction false} LastColonIs(s: string)
    requires 0 <= LastColon(s)
    ensures s == s[..LastColon(s)] + ":" + s[LastColon(s) + 1..] && ':' !in s[LastColon(s) + 1..]
  {
    if s[|s| - 1] != ':' {
      var i, shorter, last := LastColon(s), s[..|s| - 1], s[|s| - 1];
      LastColonIs(shorter);
      assert s[i + 1..] == shorter[i + 1..] + [last];
      assert s == s[..i] + [s[i]] + s[i + 1..] && s[i] == shorter[i];
    }
  }

  /** Whatever the host name, colons included, the process id is read back. */
  lemma InstancePIDRoundTrip(host: string, pid: nat)
    requires pid <= MAX_INT
    ensures InstancePID(host + ":" + Decimal(pid)) == pid
  {
    hide InstancePID, Decimal;
    assert Padded(false, 0) == [];
    assert host + ":" + Padded(false, 0) + Decimal(pid) == host + ":" + Decimal(pid);
    PaddedPID(host, false, 0, pid);
  }

  ghost function Zeros(n: nat): string {
    seq(n, i => '0')
  }

  /** What Atoi passes over before a number that is not negative. */
  ghost function Padded(plus: bool, zeros: nat): string {
    (if plus then "+" else "") + Zeros(zeros)
  }

  /** The instance id says, behind its last colon, which process it is: in
      decimal, with an optional plus sign and any number of leading zeros. */
  ghost predicate NamesProcess(id: string, pid: nat) {
    exists host: string, plus: bool, zeros: nat :: id == host + ":" + Padded(plus, zeros) + Decimal(pid)
  }

  lemma {:induction false} ValueOfPadded(zeros: nat, digits: string)
    requires AllDigits(digits)
    ensures AllDigits(Zeros(zeros) + digits)
    ensures Value10(Zeros(zeros) + digits) == Value10(digits)
  {
    var all := Zeros(zeros) + digits;
    if digits != [] {
      ValueOfPadded(zeros, digits[..|digits| - 1]);
      assert all[..|all| - 1] == Zeros(zeros) + digits[..|digits| - 1];
    } else if zeros != 0 {
      ValueOfPadded(zeros - 1, digits);
      assert all[..|all| - 1] == Zeros(zeros - 1) + digits;
    }
  }

  /** Digits are leading zeros and the decimal of their value. */
  lemma {:induction false} DigitsForm(digits: string) returns (zeros: nat)
    requires AllDigits(digits)
    ensures 0 <= Value10(digits)
    ensures Value10(digits) == 0 ==> digits == Zeros(zeros)
    ensures 0 < Value10(digits) ==> digits == Zeros(zeros) + Decimal(Value10(digits))
  {
    zeros := 0;
    if digits != [] {
      var shorter, last := digits[..|digits| - 1], digits[|digits| - 1];
      zeros := DigitsForm(shorter);
      assert digits == shorter + [last];
      if Value10(digits) == 0 {
        zeros := zeros + 1;
        assert digits == Zeros(zeros);
      } else if Value10(shorter) == 0 {
        assert Decimal(Value10(digits)) == [last];
      } else {
        assert Decimal(Value10(digits)) == Decimal(Value10(shorter)) + [last];
        assert digits == Zeros(zeros) + Decimal(Value10(digits));
      }
    }
  }

  lemma PaddedPID(host: string, plus: bool, zeros: nat, pid: nat)
    requires pid <= MAX_INT
    ensures InstancePID(host + ":" + Padded(plus, zeros) + Decimal(pid)) == pid
  {
    hide Value10, LastColon, Decimal;
    var digits := Zeros(zeros) + Decimal(pid);
    var rest, id := Padded(plus, zeros) + Decimal(pid), host + ":" + Padded(plus, zeros) + Decimal(pid);
    DecimalRoundTrip(pid);
    ValueOfPadded(zeros, Decimal(pid));
    assert id == host + ":" + rest && id[|host| + 1..] == rest;
    if plus {
      assert rest[1..] == digits;
    } else {
      assert rest == digits && IsDigit(digits[0]);
    }
    assert ':' !in rest;
    LastColonBefore(host, rest);
  }

  lemma NumberForm(s: string, n: nat) returns (plus: bool, zeros: nat)
    requires 0 < n && Atoi(s) == Some(n)
    ensures n <= MAX_INT && s == Padded(plus, zeros) + Decimal(n)
  {
    hide Value10, Decimal, AllDigits, Zeros;
    SignedDigits(s, n);
    plus := s[0] == '+';
    if plus {
      zeros := DigitsForm(s[1..]);
      assert s == ['+'] + s[1..];
      assert "+" + (Zeros(zeros) + Decimal(n)) == "+" + Zeros(zeros) + Decimal(n);
    } else {
      zeros := DigitsForm(s);
      assert "" + Zeros(zeros) == Zeros(zeros);
    }
  }

  /** A positive number has digits, and at most a plus sign before them. */
  lemma SignedDigits(s: string, n: nat)
    requires 0 < n && Atoi(s) == Some(n)
    ensures s != [] && n <= MAX_INT
    ensures
      var digits := if s[0] == '+' then s[1..] else s;
      AllDigits(digits) && Value10(digits) == n
  {
    hide Value10, AllDigits, Decimal;
    if s[0] == '-' {
      var zeros := DigitsForm(s[1..]);
      assert false;
    }
  }

  /** An instance id yields a process id exactly when it names that process. */
  lemma InstancePIDIff(id: string, pid: nat)
    requires 0 < pid
    ensures InstancePID(id) == pid <==> pid <= 0x7FFF_FFFF_FFFF_FFFF && NamesProcess(id, pid)
  {
    hide Value10, LastColon, Decimal, Atoi, Padded;
    if pid <= MAX_INT && NamesProcess(id, pid) {
      var host: string, plus: bool, zeros: nat :| id == host + ":" + Padded(plus, zeros) + Decimal(pid);
      PaddedPID(host, plus, zeros, pid);
    }
    if InstancePID(id) == pid {
      var idx := LastColon(id);
      LastColonIs(id);
      var plus, zeros := NumberForm(id[idx + 1..], pid);
      assert id == id[..idx] + ":" + Padded(plus, zeros) + Decimal(pid);
    }
  }

  // ----- resolving a sidecar resource -----

  datatype Span = Span(attributes: seq<KeyValue>)

  /** The peer addresses of all spans, in the order they are tried. */
  function AddressesOf(attributes: seq<KeyValue>): seq<string> {
    if attributes == [] then []
    else (if attributes[0].key == ADDRESS then [StringOf(attributes[0].value)] else []) + AddressesOf(attributes[1..])
  }

  function SpanAddresses(spans: seq<Span>): seq<string> {
    if spans == [] then [] else AddressesOf(spans[0].attributes) + SpanAddresses(spans[1..])
  }

  function Addresses(scopes: seq<seq<Span>>): seq<string> {
    if scopes == [] then [] else SpanAddresses(scopes[0]) + Addresses(scopes[1..])
  }

  function FirstKnown(addresses: seq<string>, ips: map<string, string>): Option<string> {
    if addresses == [] then None
    else if addresses[0] in ips then Some(ips[addresses[0]])
    else FirstKnown(addresses[1..], ips)
  }

  /** The two indexes; a gateway may lack either. */
  datatype Indexes = Indexes(pids: Option<map<int, string>>, ips: Option<map<string, string>>)

  function ResolveEBPFService(attributes: seq<KeyValue>, scopes: seq<seq<Span>>, indexes: Indexes): Option<string> {
    var pid := InstancePID(ResourceAttr(attributes, INSTANCE));
    if indexes.pids.Some? && pid > 0 && pid in indexes.pids.value then Some(indexes.pids.value[pid])
    else if indexes.ips.Some? then FirstKnown(Addresses(scopes), indexes.ips.value)
    else None
  }

  /** The name of the first known address, and none exactly when none is known. */
  lemma {:induction false} FirstKnownIs(addresses: seq<string>, ips: map<string, string>)
    ensures FirstKnown(addresses, ips) == None <==> forall i :: 0 <= i < |addresses| ==> addresses[i] !in ips
    ensures FirstKnown(addresses, ips) != None ==>
      exists i :: 0 <= i < |addresses| && addresses[i] in ips &&
        FirstKnown(addresses, ips) == Some(ips[addresses[i]]) &&
        forall j :: 0 <= j < i ==> addresses[j] !in ips
  {
    if addresses != [] && addresses[0] !in ips {
      FirstKnownIs(addresses[1..], ips);
      if FirstKnown(addresses, ips) != None {
        var i :| 0 <= i < |addresses| - 1 && addresses[1..][i] in ips &&
          FirstKnown(addresses, ips) == Some(ips[addresses[1..][i]]) &&
          forall j :: 0 <= j < i ==> addresses[1..][j] !in ips;
        assert addresses[i + 1] == addresses[1..][i];
        assert forall j :: 0 < j < i + 1 ==> addresses[j] == addresses[1..][j - 1];
      }
    }
  }

  lemma {:induction false} FirstKnownConcat(a: seq<string>, b: seq<string>, ips: map<string, string>)
    ensures FirstKnown(a + b, ips) == if FirstKnown(a, ips).Some? then FirstKnown(a, ips) else FirstKnown(b, ips)
  {
    if a == [] {
      assert a + b == b;
    } else {
      FirstKnownConcat(a[1..], b, ips);
      assert (a + b)[1..] == a[1..] + b;
    }
  }

  /** A peer address the index knows. */
  ghost predicate KnownPeer(a: KeyValue, ips: map<string, string>) {
    a.key == "server.address" && (if a.value.Text? then a.value.text else "") in ips
  }

  ghost function PeerName(a: KeyValue, ips: map<string, string>): string
    requires KnownPeer(a, ips)
  {
    ips[if a.value.Text? then a.value.text else ""]
  }

  /** No attribute, no attribute of the spans, none of the scopes. */
  ghost predicate NoPeer(attributes: seq<KeyValue>, ips: map<string, string>) {
    forall c :: 0 <= c < |attributes| ==> !KnownPeer(attributes[c], ips)
  }

  ghost predicate NoPeers(spans: seq<Span>, ips: map<string, string>) {
    forall b :: 0 <= b < |spans| ==> NoPeer(spans[b].attributes, ips)
  }

  ghost predicate NoPeersAtAll(scopes: seq<seq<Span>>, ips: map<string, string>) {
    forall a :: 0 <= a < |scopes| ==> NoPeers(scopes[a], ips)
  }

  /** The first known peer, in the order of the scopes, of the spans of one, and of
      the attributes of one. */
  ghost predicate FirstPeer(scopes: seq<seq<Span>>, ips: map<string, string>, a: nat, b: nat, c: nat) {
    && a < |scopes| && b < |scopes[a]| && c < |scopes[a][b].attributes|
    && KnownPeer(scopes[a][b].attributes[c], ips)
    && NoPeersAtAll(scopes[..a], ips) && NoPeers(scopes[a][..b], ips) && NoPeer(scopes[a][b].attributes[..c], ips)
  }

  lemma {:induction false} PeerInAttributes(attributes: seq<KeyValue>, ips: map<string, string>, c: nat)
    requires c <= |attributes| && NoPeer(attributes[..c], ips)
    requires c < |attributes| ==> KnownPeer(attributes[c], ips)
    ensures FirstKnown(AddressesOf(attributes), ips) ==
      if c < |attributes| then Some(PeerName(attributes[c], ips)) else None
  {
    if c == 0 {
      if attributes != [] {
        FirstKnownConcat([StringOf(attributes[0].value)], AddressesOf(attributes[1..]), ips);
      }
    } else {
      assert !KnownPeer(attributes[..c][0], ips);
      assert attributes[1..][..c - 1] == attributes[..c][1..];
      PeerInAttributes(attributes[1..], ips, c - 1);
      if attributes[0].key == ADDRESS {
        FirstKnownConcat([StringOf(attributes[0].value)], AddressesOf(attributes[1..]), ips);
      } else {
        assert [] + AddressesOf(attributes[1..]) == AddressesOf(attributes[1..]);
      }
    }
  }

  lemma {:induction false} PeerInSpans(spans: seq<Span>, ips: map<string, string>, b: nat, c: nat)
    requires b <= |spans| && NoPeers(spans[..b], ips)
    requires b < |spans| ==>
      c < |spans[b].attributes| && KnownPeer(spans[b].attributes[c], ips) && NoPeer(spans[b].attributes[..c], ips)
    ensures FirstKnown(SpanAddresses(spans), ips) ==
      if b < |spans| then Some(PeerName(spans[b].attributes[c], ips)) else None
  {
    hide KnownPeer, PeerName, AddressesOf, NoPeer;
    if spans != [] {
      var attributes := spans[0].attributes;
      FirstKnownConcat(AddressesOf(attributes), SpanAddresses(spans[1..]), ips);
      if b == 0 {
        PeerInAttributes(attributes, ips, c);
      } else {
        assert NoPeer(spans[..b][0].attributes, ips) && attributes[..|attributes|] == attributes;
        assert spans[1..][..b - 1] == spans[..b][1..];
        PeerInAttributes(attributes, ips, |attributes|);
        PeerInSpans(spans[1..], ips, b - 1, c);
      }
    }
  }

  lemma {:induction false} PeerInScopes(scopes: seq<seq<Span>>, ips: map<string, string>, a: nat, b: nat, c: nat)
    requires a <= |scopes| && NoPeersAtAll(scopes[..a], ips)
    requires a < |scopes| ==> FirstPeer(scopes, ips, a, b, c)
    ensures FirstKnown(Addresses(scopes), ips) ==
      if a < |scopes| then Some(PeerName(scopes[a][b].attributes[c], ips)) else None
  {
    hide KnownPeer, PeerName, SpanAddresses, NoPeers, NoPeer;
    if scopes != [] {
      var spans := scopes[0];
      FirstKnownConcat(SpanAddresses(spans), Addresses(scopes[1..]), ips);
      if a == 0 {
        PeerInSpans(spans, ips, b, c);
      } else {
        assert NoPeers(scopes[..a][0], ips) && spans[..|spans|] == spans;
        assert scopes[1..][..a - 1] == scopes[..a][1..];
        PeerInSpans(spans, ips, |spans|, 0);
        PeerInScopes(scopes[1..], ips, a - 1, b, c);
      }
    }
  }

  // ----- forcing the name -----

  function RenamedOne(a: KeyValue, name: string): KeyValue {
    if a.key == SERVICE_NAME && StringOf(a.value) != name then KeyValue(SERVICE_NAME, Text(name)) else a
  }

  function Renamed(attributes: seq<KeyValue>, name: string): (r: seq<KeyValue>)
    ensures |r| == |attributes|
  {
    seq(|attributes|, i requires 0 <= i < |attributes| => RenamedOne(attributes[i], name))
  }

  predicate Has(attributes: seq<KeyValue>, key: string) {
    exists i :: 0 <= i < |attributes| && attributes[i].key == key
  }

  function Forced(attributes: seq<KeyValue>, name: string): seq<KeyValue> {
    if Has(attributes, SERVICE_NAME) then Renamed(attributes, name)
    else attributes + [KeyValue(SERVICE_NAME, Text(name))]
  }

  /** Every attribute but the service name, in order. */
  ghost function Others(attributes: seq<KeyValue>): seq<KeyValue> {
    if attributes == [] then []
    else
      var last := attributes[|attributes| - 1];
      Others(attributes[..|attributes| - 1]) + if last.key == "service.name" then [] else [last]
  }

  /** The resource bears this name and no other. */
  ghost predicate Bears(attributes: seq<KeyValue>, name: string) {
    Has(attributes, "service.name") &&
    forall i :: 0 <= i < |attributes| && attributes[i].key == "service.name" ==> StringOf(attributes[i].value) == name
  }

  /** The name is forced, the other attributes are as they were, and forcing a
      name that is already borne changes nothing. */
  lemma ForcedMeans(attributes: seq<KeyValue>, name: string)
    ensures Bears(Forced(attributes, name), name)
    ensures Others(Forced(attributes, name)) == Others(attributes)
    ensures Forced(attributes, name) == attributes <==> Bears(attributes, name)
  {
    var r := Forced(attributes, name);
    if Has(attributes, SERVICE_NAME) {
      var i :| 0 <= i < |attributes| && attributes[i].key == SERVICE_NAME;
      assert r[i].key == SERVICE_NAME;
      RenamedOthers(attributes, name);
    } else {
      assert r[|attributes|].key == SERVICE_NAME;
      assert r[..|r| - 1] == attributes;
    }
  }

  lemma {:induction false} RenamedOthers(attributes: seq<KeyValue>, name: string)
    ensures Others(Renamed(attributes, name)) == Others(attributes)
  {
    if attributes != [] {
      var shorter := attributes[..|attributes| - 1];
      RenamedOthers(shorter, name);
      assert Renamed(attributes, name)[..|attributes| - 1] == Renamed(shorter, name);
    }
  }

  lemma {:induction false} AttrOfOthers(attributes: seq<KeyValue>, key: string)
    requires key != SERVICE_NAME
    ensures ResourceAttr(Others(attributes), key) == ResourceAttr(attributes, key)
  {
    if attributes != [] {
      var shorter, last := attributes[..|attributes| - 1], attributes[|attributes| - 1];
      AttrOfOthers(shorter, key);
      AttrOfConcat(shorter, last, key);
      AttrOfConcat(Others(shorter), last, key);
      OthersHas(shorter, key);
      assert shorter + [last] == attributes;
      assert Others(shorter) + [] == Others(shorter);
    }
  }

  lemma {:induction false} OthersHas(attributes: seq<KeyValue>, key: string)
    requires key != SERVICE_NAME
    ensures Has(Others(attributes), key) <==> Has(attributes, key)
  {
    if attributes != [] {
      var shorter, last := attributes[..|attributes| - 1], attributes[|attributes| - 1];
      OthersHas(shorter, key);
      HasMore(shorter, last, key);
      HasMore(Others(shorter), last, key);
      assert shorter + [last] == attributes;
      assert Others(shorter) + [] == Others(shorter);
    }
  }

  lemma HasMore(attributes: seq<KeyValue>, last: KeyValue, key: string)
    ensures Has(attributes + [last], key) <==> Has(attributes, key) || last.key == key
  {
    var all := attributes + [last];
    assert all[|attributes|] == last;
    if Has(attributes, key) {
      var i :| 0 <= i < |attributes| && attributes[i].key == key;
      assert all[i].key == key;
    }
  }

  lemma {:induction false} AttrOfConcat(attributes: seq<KeyValue>, last: KeyValue, key: string)
    ensures ResourceAttr(attributes + [last], key) ==
      if Has(attributes, key) then ResourceAttr(attributes, key)
      else if last.key == key then StringOf(last.value) else ""
    ensures Has(attributes, key) || ResourceAttr(attributes, key) == ""
  {
    var all := attributes + [last];
    if attributes != [] {
      assert all[1..] == attributes[1..] + [last];
      AttrOfConcat(attributes[1..], last, key);
      assert forall i :: 0 < i < |attributes| ==> attributes[i] == attributes[1..][i - 1];
    }
  }

  /** Forcing the name leaves what every other key reads as. */
  lemma ForcedAttr(attributes: seq<KeyValue>, name: string, key: string)
    requires key != SERVICE_NAME
    ensures ResourceAttr(Forced(attributes, name), key) == ResourceAttr(attributes, key)
  {
    ForcedMeans(attributes, name);
    AttrOfOthers(attributes, key);
    AttrOfOthers(Forced(attributes, name), key);
  }

  lemma HasAt(attributes: seq<KeyValue>, i: nat, key: string)
    requires i < |attributes| && attributes[i].key == key
    ensures Has(attributes, key)
  {
  }

  class Resource {
    var attributes: seq<KeyValue>

    constructor ()
      ensures attributes == []
    {
      attributes := [];
    }

    /** The result says exactly whether the resource changed. */
    method ForceServiceName(name: string) returns (changed: bool)
      modifies this
      ensures attributes == Forced(old(attributes), name)
      ensures changed <==> attributes != old(attributes)
    {
      ghost var was := attributes;
      var found := false;
      changed := false;
      for i := 0 to |attributes|
        invariant |attributes| == |was|
        invariant forall j :: 0 <= j < |was| ==> attributes[j] == if j < i then RenamedOne(was[j], name) else was[j]
        invariant if found then Has(was, SERVICE_NAME) else forall j :: 0 <= j < i ==> was[j].key != SERVICE_NAME
        invariant if changed then found && attributes != was else attributes == was
      {
        hide Has;
        var attr := attributes[i];
        if attr.key == SERVICE_NAME {
          found := true;
          HasAt(was, i, SERVICE_NAME);
          if StringOf(attr.value) != name {
            attributes := attributes[i := attr.(value := Text(name))];
            changed := true;
            assert attributes[i] != was[i];
          }
        }
      }
      if found {
        return changed;
      }
      attributes := attributes + [KeyValue(SERVICE_NAME, Text(name))];
      return true;
    }
  }
}
