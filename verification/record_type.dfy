/** Classification of an MRT record by its (type, subtype) code pair, following
    the type and subtype codes of sections 4.1 to 4.7 of RFC 6396, and the
    extended-timestamp flag of section 3 of RFC 6396. */
module RecordType {
  import opened Bytes

  /** Subtypes of TABLE_DUMP (type 12). */
  datatype TableDumpSubtype = AfiIpv4 | AfiIpv6

  /** Subtypes of TABLE_DUMP_V2 (type 13). */
  datatype TableDumpV2Subtype =
    | PeerIndexTable
    | RibIpv4Unicast
    | RibIpv4Multicast
    | RibIpv6Unicast
    | RibIpv6Multicast
    | RibGeneric

  /** Subtypes shared by BGP4MP (type 16) and BGP4MP_ET (type 17). */
  datatype Bgp4MpSubtype =
    | StateChange
    | Message
    | MessageAs4
    | StateChangeAs4
    | MessageLocal
    | MessageAs4Local

  /** The closed set of record kinds. `Unknown` is a known type code with an
      unrecognised subtype; `Reserved` is an unrecognised type code. Neither
      keeps the codes it was built from. */
  datatype MrtRecordType =
    | Ospfv2
    | TableDump(tableDump: TableDumpSubtype)
    | TableDumpV2(tableDumpV2: TableDumpV2Subtype)
    | Bgp4Mp(bgp4Mp: Bgp4MpSubtype)
    | Bgp4MpEt(bgp4MpEt: Bgp4MpSubtype)
    | Isis
    | IsisEt
    | OspfV3
    | OspfV3Et
    | Unknown
    | Reserved

  /** The type codes that the classifier recognises. */
  predicate KnownTypeCode(t: uint16)
  {
    t == 11 || t == 12 || t == 13 || t == 16 || t == 17 || t == 32 || t == 33 || t == 48 || t == 49
  }

  /** The type codes whose kind depends on the subtype code. */
  predicate SubtypedTypeCode(t: uint16)
  {
    t == 12 || t == 13 || t == 16 || t == 17
  }

  /** The type codes of the kinds that carry a microsecond timestamp field. */
  predicate EtTypeCode(t: uint16)
  {
    t == 17 || t == 33 || t == 49
  }

  /** The subtype codes recognised under each subtyped type code: 1 and 2
      under 12, 1 to 6 under 13, and 0, 1, 4, 5, 6 and 7 under 16 and 17. */
  predicate KnownSubtype(t: uint16, st: uint16)
  {
    if t == 12 then st == 1 || st == 2
    else if t == 13 then 1 <= st <= 6
    else if t == 16 || t == 17 then st == 0 || st == 1 || 4 <= st <= 7
    else false
  }

  // Reference code tables, read in the direction opposite to classification.

  function TableDumpSubtypeCode(st: TableDumpSubtype): uint16
  {
    match st
    case AfiIpv4 => 1
    case AfiIpv6 => 2
  }

  function TableDumpV2SubtypeCode(st: TableDumpV2Subtype): uint16
  {
    match st
    case PeerIndexTable => 1
    case RibIpv4Unicast => 2
    case RibIpv4Multicast => 3
    case RibIpv6Unicast => 4
    case RibIpv6Multicast => 5
    case RibGeneric => 6
  }

  function Bgp4MpSubtypeCode(st: Bgp4MpSubtype): uint16
  {
    match st
    case StateChange => 0
    case Message => 1
    case MessageAs4 => 4
    case StateChangeAs4 => 5
    case MessageLocal => 6
    case MessageAs4Local => 7
  }

  /** The kinds that stand for one particular code pair. */
  predicate IsKnown(k: MrtRecordType)
  {
    !k.Unknown? && !k.Reserved?
  }

  /** Whether the kind is told apart from its siblings by its subtype code. */
  predicate HasSubtype(k: MrtRecordType)
  {
    k.TableDump? || k.TableDumpV2? || k.Bgp4Mp? || k.Bgp4MpEt?
  }

  /** The type code of a known kind. */
  function TypeCode(k: MrtRecordType): uint16
    requires IsKnown(k)
  {
    match k
    case Ospfv2 => 11
    case TableDump(_) => 12
    case TableDumpV2(_) => 13
    case Bgp4Mp(_) => 16
    case Bgp4MpEt(_) => 17
    case Isis => 32
    case IsisEt => 33
    case OspfV3 => 48
    case OspfV3Et => 49
  }

  /** The subtype code of a kind that has one; 0 for the others. */
  function SubtypeCode(k: MrtRecordType): uint16
  {
    match k
    case TableDump(st) => TableDumpSubtypeCode(st)
    case TableDumpV2(st) => TableDumpV2SubtypeCode(st)
    case Bgp4Mp(st) => Bgp4MpSubtypeCode(st)
    case Bgp4MpEt(st) => Bgp4MpSubtypeCode(st)
    case _ => 0
  }

  /** Classifies a (type, subtype) code pair. Total: every pair yields a kind,
      `Reserved` exactly for unrecognised type codes and `Unknown` exactly for
      unrecognised subtypes of the four subtyped type codes. */
  function FromCodes(t: uint16, st: uint16): (k: MrtRecordType)
    ensures k.Reserved? <==> !KnownTypeCode(t)
    ensures k.Unknown? <==> SubtypedTypeCode(t) && !KnownSubtype(t, st)
    ensures IsKnown(k) ==> TypeCode(k) == t
    ensures HasSubtype(k) ==> SubtypeCode(k) == st
    ensures IsKnown(k) ==> (HasSubtype(k) <==> SubtypedTypeCode(t))
  {
    match t
    case 11 => Ospfv2
    case 12 =>
      (match st
       case 1 => TableDump(AfiIpv4)
       case 2 => TableDump(AfiIpv6)
       case _ => Unknown)
    case 13 =>
      (match st
       case 1 => TableDumpV2(PeerIndexTable)
       case 2 => TableDumpV2(RibIpv4Unicast)
       case 3 => TableDumpV2(RibIpv4Multicast)
       case 4 => TableDumpV2(RibIpv6Unicast)
       case 5 => TableDumpV2(RibIpv6Multicast)
       case 6 => TableDumpV2(RibGeneric)
       case _ => Unknown)
    case 16 =>
      (match st
       case 0 => Bgp4Mp(StateChange)
       case 1 => Bgp4Mp(Message)
       case 4 => Bgp4Mp(MessageAs4)
       case 5 => Bgp4Mp(StateChangeAs4)
       case 6 => Bgp4Mp(MessageLocal)
       case 7 => Bgp4Mp(MessageAs4Local)
       case _ => Unknown)
    case 17 =>
      (match st
       case 0 => Bgp4MpEt(StateChange)
       case 1 => Bgp4MpEt(Message)
       case 4 => Bgp4MpEt(MessageAs4)
       case 5 => Bgp4MpEt(StateChangeAs4)
       case 6 => Bgp4MpEt(MessageLocal)
       case 7 => Bgp4MpEt(MessageAs4Local)
       case _ => Unknown)
    case 32 => Isis
    case 33 => IsisEt
    case 48 => OspfV3
    case 49 => OspfV3Et
    case _ => Reserved
  }

  /** Whether a 4-byte microsecond field follows the 12-byte common header:
      exactly for the known kinds whose type code is an `_ET` code. */
  function IsEt(k: MrtRecordType): (b: bool)
    ensures b <==> IsKnown(k) && EtTypeCode(TypeCode(k))
  {
    match k
    case Bgp4MpEt(_) => true
    case IsisEt => true
    case OspfV3Et => true
    case _ => false
  }

  /** Every known kind is what its own codes classify to, so the classifier
      reaches every kind and the code tables above are its inverse. */
  lemma FromCodesOfCodes(k: MrtRecordType)
    requires IsKnown(k)
    ensures FromCodes(TypeCode(k), SubtypeCode(k)) == k
  {
  }

  /** Type codes 11, 32, 33, 48 and 49 classify the same whatever the subtype. */
  lemma SubtypeIgnored(t: uint16, st1: uint16, st2: uint16)
    requires KnownTypeCode(t) && !SubtypedTypeCode(t)
    ensures FromCodes(t, st1) == FromCodes(t, st2)
    ensures IsKnown(FromCodes(t, st1))
  {
  }

  /** BGP4MP_ET recognises the same subtypes as BGP4MP, and yields the same
      subtype wrapped in the `_ET` variant. */
  lemma Bgp4MpEtMirrorsBgp4Mp(st: uint16)
    ensures FromCodes(16, st).Bgp4Mp? <==> FromCodes(17, st).Bgp4MpEt?
    ensures FromCodes(16, st).Unknown? <==> FromCodes(17, st).Unknown?
    ensures FromCodes(16, st).Bgp4Mp? ==> FromCodes(17, st).bgp4MpEt == FromCodes(16, st).bgp4Mp
  {
  }

  /** Whether the microsecond field is present, in terms of the raw codes. */
  lemma IsEtOfCodes(t: uint16, st: uint16)
    ensures IsEt(FromCodes(t, st)) <==> t == 33 || t == 49 || (t == 17 && KnownSubtype(17, st))
  {
  }
}
