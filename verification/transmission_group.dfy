/**
 * The EN 61162-450 transmission groups: the sixteen identifiers of
 * `NmeaTrasmissionGroupEnum` and the table that maps each to a multicast
 * address and UDP port.
 */
module TransmissionGroup {
  import opened Wrappers
  import opened TextFormat
  import opened MulticastConfig

  /** The sixteen transmission-group identifiers, in declaration order. */
  datatype Group =
    | MISC | TGTD | SATD | NAVD | VDRD | RCOM | TIME | PROP
    | USR1 | USR2 | USR3 | USR4 | USR5 | USR6 | USR7 | USR8

  /** The enumerator's value: MISC is 0, USR8 is 15. */
  function Ordinal(g: Group): (i: nat)
    ensures i < 16
  {
    match g
    case MISC => 0  case TGTD => 1  case SATD => 2  case NAVD => 3
    case VDRD => 4  case RCOM => 5  case TIME => 6  case PROP => 7
    case USR1 => 8  case USR2 => 9  case USR3 => 10 case USR4 => 11
    case USR5 => 12 case USR6 => 13 case USR7 => 14 case USR8 => 15
  }

  /** The identifier with a given enumerator value. */
  function FromOrdinal(i: nat): (g: Group)
    requires i < 16
    ensures Ordinal(g) == i
  {
    [MISC, TGTD, SATD, NAVD, VDRD, RCOM, TIME, PROP,
     USR1, USR2, USR3, USR4, USR5, USR6, USR7, USR8][i]
  }

  /** Ordinals and identifiers are in one-to-one correspondence: there are exactly sixteen. */
  lemma OrdinalsAreExactly0To15(g: Group, h: Group)
    ensures FromOrdinal(Ordinal(g)) == g
    ensures Ordinal(g) == Ordinal(h) ==> g == h
  {
  }

  /** A multicast address and UDP port. */
  datatype Destination = Destination(addr: Ipv4, port: nat)

  // ------------------------------------------------------ the source's table

  /**
   * `NmeaTrasmissionGroupMap` as the source initialises it: entries for
   * MISC..PROP only, addresses as text. The user groups have no entry.
   */
  function SourceGroupTable(g: Group): Option<(string, int)> {
    match g
    case MISC => Some(("239.192.0.1", 60001))
    case TGTD => Some(("239.192.0.2", 60002))
    case SATD => Some(("239.192.0.3", 60003))
    case NAVD => Some(("239.192.0.4", 60004))
    case VDRD => Some(("239.192.0.5", 60005))
    case RCOM => Some(("239.192.0.6", 60006))
    case TIME => Some(("239.192.0.7", 60007))
    case PROP => Some(("239.192.0.8", 60008))
    case _ => None
  }

  /**
   * What the constructor reads through `operator[]`: the entry if present,
   * otherwise the default-constructed pair ("", 0) that `operator[]` inserts.
   */
  function SourceGroupLookup(g: Group): (e: (string, int))
    ensures SourceGroupTable(g).Some? ==> e == SourceGroupTable(g).value
    ensures SourceGroupTable(g).None? ==> e == ("", 0)
  {
    match SourceGroupTable(g)
    case Some(entry) => entry
    case None => ("", 0)
  }

  /**
   * For USR1..USR8 the constructor is handed an empty address text, which is
   * not the text of any address, and port 0.
   */
  lemma UserGroupLookupIsEmpty(g: Group)
    requires Ordinal(g) >= 8
    ensures SourceGroupLookup(g) == ("", 0)
    ensures forall a: Ipv4 :: Dotted(a) != SourceGroupLookup(g).0
  {
    forall a: Ipv4 ensures Dotted(a) != "" {
      assert |Dotted(a)| >= 7;
    }
  }

  // ------------------------------------------------------ the standard table

  /**
   * The full table of the standard: group i is 239.192.0.(i+1), port 60001+i,
   * for all sixteen groups.
   */
  function GroupEntry(g: Group): (e: Destination)
    ensures IsClassD(e.addr)
    ensures e.addr == Ipv4(239, 192, 0, e.addr.o4) && e.addr.o4 as int == Ordinal(g) + 1
    ensures e.port == 60001 + Ordinal(g)
    ensures 60001 <= e.port <= 60016
  {
    assert forall i :: 0 <= i < 16 ==> GroupLastOctet[i] as int == i + 1;
    Destination(Ipv4(239, 192, 0, GroupLastOctet[Ordinal(g)]), 60001 + Ordinal(g))
  }

  /** The last address octet of each group, by ordinal: one more than the ordinal. */
  const GroupLastOctet: seq<bv8> := [1, 2, 3, 4, 5, 6, 7, 8, 9, 10, 11, 12, 13, 14, 15, 16]

  /** The table is collision-free: distinct groups have distinct addresses and distinct ports. */
  lemma GroupEntriesDistinct(g: Group, h: Group)
    requires g != h
    ensures GroupEntry(g).addr != GroupEntry(h).addr
    ensures GroupEntry(g).port != GroupEntry(h).port
  {
    if Ordinal(g) == Ordinal(h) {
      OrdinalsAreExactly0To15(g, h);
    }
  }

  /** Every address of the standard table passes the corrected multicast check. */
  lemma GroupAddressesAreMulticast(g: Group)
    ensures PassesMulticastCheck(GroupEntry(g).addr)
    ensures PassesSourceCheck(GroupEntry(g).addr)
  {
    MulticastCheckIsClassD(GroupEntry(g).addr);
    SourceCheckAcceptsFrom224(GroupEntry(g).addr);
  }

  /**
   * Where the source has an entry it is the standard one, written as text;
   * the user groups are exactly the ones it lacks.
   */
  lemma SourceTableAgreesWithStandard(g: Group)
    ensures Ordinal(g) < 8 ==> SourceGroupTable(g) == Some((Dotted(GroupEntry(g).addr), GroupEntry(g).port))
    ensures Ordinal(g) >= 8 <==> SourceGroupTable(g).None?
  {
    match g
    case MISC =>
      assert GroupEntry(g) == Destination(Ipv4(239, 192, 0, 1), 60001);
      GroupAddressText(1, '1');
      assert "239.192.0.1" == "239.192.0." + ['1'];
    case TGTD =>
      assert GroupEntry(g) == Destination(Ipv4(239, 192, 0, 2), 60002);
      GroupAddressText(2, '2');
      assert "239.192.0.2" == "239.192.0." + ['2'];
    case SATD =>
      assert GroupEntry(g) == Destination(Ipv4(239, 192, 0, 3), 60003);
      GroupAddressText(3, '3');
      assert "239.192.0.3" == "239.192.0." + ['3'];
    case NAVD =>
      assert GroupEntry(g) == Destination(Ipv4(239, 192, 0, 4), 60004);
      GroupAddressText(4, '4');
      assert "239.192.0.4" == "239.192.0." + ['4'];
    case VDRD =>
      assert GroupEntry(g) == Destination(Ipv4(239, 192, 0, 5), 60005);
      GroupAddressText(5, '5');
      assert "239.192.0.5" == "239.192.0." + ['5'];
    case RCOM =>
      assert GroupEntry(g) == Destination(Ipv4(239, 192, 0, 6), 60006);
      GroupAddressText(6, '6');
      assert "239.192.0.6" == "239.192.0." + ['6'];
    case TIME =>
      assert GroupEntry(g) == Destination(Ipv4(239, 192, 0, 7), 60007);
      GroupAddressText(7, '7');
      assert "239.192.0.7" == "239.192.0." + ['7'];
    case PROP =>
      assert GroupEntry(g) == Destination(Ipv4(239, 192, 0, 8), 60008);
      GroupAddressText(8, '8');
      assert "239.192.0.8" == "239.192.0." + ['8'];
    case _ =>
  }

  /** The text of 239.192.0.x for a one-digit x. */
  lemma GroupAddressText(x: bv8, c: char)
    requires x < 10 && c == DigitChar(x as int)
    ensures Dotted(Ipv4(239, 192, 0, x)) == "239.192.0." + [c]
  {
    assert Dec(239) == "239" by {
      assert Dec(23) == "23";
    }
    assert Dec(192) == "192" by {
      assert Dec(19) == "19";
    }
  }
}
