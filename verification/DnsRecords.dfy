/** DNS names, records, messages and the uninterpreted cryptography that the delegation walk rests on. */
module DnsRecords {

  import opened Basics

  type Label = string

  /** A name as its labels, top-level label first, so the root is [] and an ancestor is a prefix. */
  type Name = seq<Label>

  predicate IsSubDomain(parent: Name, child: Name) {
    parent <= child
  }

  type Ip = string

  datatype RType =
    TypeA | TypeAAAA | TypeNS | TypeSOA | TypeCNAME | TypeDS | TypeDNSKEY | TypeRRSIG | TypeOther(code: nat)

  datatype Rcode = NoError | NxDomain | OtherRcode(code: nat)

  datatype Ds = Ds(keyTag: nat, algorithm: nat, digestType: nat, digest: seq<bv8>)

  datatype Key = Key(owner: Name, flags: nat, algorithm: nat, publicKey: seq<bv8>)

  /** fields is all the rest of the record: algorithm, labels, original lifetime and the two dates. */
  datatype Sig = Sig(covers: RType, keyTag: nat, signer: Name, fields: seq<bv8>, signature: seq<bv8>)

  datatype Data =
    | AddressV4(ip: Ip)
    | AddressV6(ip: Ip)
    | NameServer(host: Name)
    | StartOfAuthority
    | Alias(target: Name)
    | DsData(ds: Ds)
    | KeyData(flags: nat, algorithm: nat, publicKey: seq<bv8>)
    | SigData(sig: Sig)
    | OtherData(code: nat, text: string)

  datatype RR = RR(owner: Name, data: Data) {
    function Type(): RType {
      match data
      case AddressV4(_) => TypeA
      case AddressV6(_) => TypeAAAA
      case NameServer(_) => TypeNS
      case StartOfAuthority => TypeSOA
      case Alias(_) => TypeCNAME
      case DsData(_) => TypeDS
      case KeyData(_, _, _) => TypeDNSKEY
      case SigData(_) => TypeRRSIG
      case OtherData(code, _) => TypeOther(code)
    }
  }

  datatype Msg = Msg(authoritative: bool, truncated: bool, rcode: Rcode, answer: seq<RR>, ns: seq<RR>, extra: seq<RR>)

  /** What asking one server once produced: nothing at all, or a message it was free to make up. */
  datatype Ask = Silence | Reply(msg: Msg)

  /** Key tags, DS digests, signature verification and validity periods: any four functions at all. */
  datatype Crypto = Crypto(
    keyTag: Key -> nat,
    digest: (Key, nat) -> Option<seq<bv8>>,
    verify: (Sig, Key, seq<RR>) -> bool,
    inDate: Sig -> bool)

  predicate SigValid(c: Crypto, sig: Sig, k: Key, rrset: seq<RR>) {
    sig.keyTag == c.keyTag(k) && c.verify(sig, k, rrset) && c.inDate(sig)
  }

  /** The records of one owner and type, in message order. */
  function RRset(rrs: seq<RR>, owner: Name, t: RType): (r: seq<RR>)
    ensures forall rr :: rr in r <==> rr in rrs && rr.Type() == t && rr.owner == owner
  {
    if rrs == [] then []
    else
      var rest := RRset(rrs[1..], owner, t);
      if rrs[0].Type() == t && rrs[0].owner == owner then [rrs[0]] + rest else rest
  }

  /** Each type picks out the records of one kind. */
  lemma RRsetHolds(rrs: seq<RR>, owner: Name, rr: RR)
    ensures rr in RRset(rrs, owner, TypeA) <==> rr in rrs && rr.owner == owner && rr.data.AddressV4?
    ensures rr in RRset(rrs, owner, TypeAAAA) <==> rr in rrs && rr.owner == owner && rr.data.AddressV6?
    ensures rr in RRset(rrs, owner, TypeNS) <==> rr in rrs && rr.owner == owner && rr.data.NameServer?
    ensures rr in RRset(rrs, owner, TypeSOA) <==> rr in rrs && rr.owner == owner && rr.data.StartOfAuthority?
    ensures rr in RRset(rrs, owner, TypeCNAME) <==> rr in rrs && rr.owner == owner && rr.data.Alias?
    ensures rr in RRset(rrs, owner, TypeDS) <==> rr in rrs && rr.owner == owner && rr.data.DsData?
    ensures rr in RRset(rrs, owner, TypeDNSKEY) <==> rr in rrs && rr.owner == owner && rr.data.KeyData?
    ensures rr in RRset(rrs, owner, TypeRRSIG) <==> rr in rrs && rr.owner == owner && rr.data.SigData?
  {
  }

  /** The signatures over one owner's records of one type. */
  function Sigs(rrs: seq<RR>, owner: Name, covers: RType): (r: seq<Sig>)
    ensures forall s :: s in r <==> RR(owner, SigData(s)) in rrs && s.covers == covers
  {
    if rrs == [] then []
    else
      var rest := Sigs(rrs[1..], owner, covers);
      if rrs[0].data.SigData? && rrs[0].data.sig.covers == covers && rrs[0].owner == owner
      then [rrs[0].data.sig] + rest else rest
  }

  /** The DS records a message holds for one child zone. */
  function DsSet(rrs: seq<RR>, child: Name): (r: seq<Ds>)
    ensures forall d :: d in r <==> RR(child, DsData(d)) in rrs
  {
    if rrs == [] then []
    else
      var rest := DsSet(rrs[1..], child);
      if rrs[0].data.DsData? && rrs[0].owner == child then [rrs[0].data.ds] + rest else rest
  }

  /** The keys among some records. */
  function Keys(rrs: seq<RR>): (r: seq<Key>)
    ensures forall k :: k in r <==> RR(k.owner, KeyData(k.flags, k.algorithm, k.publicKey)) in rrs
    ensures |r| <= |rrs|
  {
    if rrs == [] then []
    else
      var rest := Keys(rrs[1..]);
      match rrs[0].data
      case KeyData(flags, algorithm, publicKey) => [Key(rrs[0].owner, flags, algorithm, publicKey)] + rest
      case _ => rest
  }
}
