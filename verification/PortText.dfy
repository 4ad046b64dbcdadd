/** Port ranges and mappings as text: reading them, and writing ranges back. */
module PortText {
  import opened Common
  import opened Decimals
  import opened Ports

  datatype RangeError = Malformed | NotPositive | Descending

  datatype MappingError = EmptyText | MalformedMapping | BadRange(range: RangeError) | SizesDiffer

  /** Rust's `u16` parser: an optional `+`, then digits, at least one, of a number below 65536. */
  function ParseU16(s: string): Option<u16> {
    var digits := if s != "" && s[0] == '+' then s[1..] else s;
    match Digits(digits, 0)
    case Some(n) => if digits != "" && n < 0x1_0000 then Some(n as u16) else None
    case None => None
  }

  /** `port` or `from-to`. */
  function ParseRange(text: string): (r: Result<PortRange, RangeError>)
    ensures r.Ok? ==> r.value.Valid()
  {
    var (first, last) := match SplitOnce(text, '-')
      case Some(halves) => halves
      case None => (text, text);
    match (ParseU16(first), ParseU16(last))
    case (Some(f), Some(l)) =>
      if f == 0 then Err(NotPositive)
      else if f > l then Err(Descending)
      else Ok(PortRange(f, l))
    case _ => Err(Malformed)
  }

  /** What construction checks: the two sides are of one size. */
  function NewMapping(local: PortRange, container: PortRange, protocol: string): (r: Result<PortMapping, MappingError>)
    requires local.Valid() && container.Valid()
    ensures r.Ok? <==> PortMapping(local, container, protocol).Valid()
    ensures r.Ok? ==> r.value == PortMapping(local, container, protocol)
  {
    if local.Size() != container.Size() then Err(SizesDiffer) else Ok(PortMapping(local, container, protocol))
  }

  /** `local:container` or `local:container/protocol`; every mapping read can be expanded. */
  function ParseMapping(text: string): (r: Result<PortMapping, MappingError>)
    ensures r.Ok? ==> r.value.Valid() && r.value.protocol != ""
  {
    if text == "" then Err(EmptyText)
    else
      match SplitOnce(text, ':')
      case None => Err(MalformedMapping)
      case Some((local, rest)) =>
        var (container, protocol) := match SplitOnce(rest, '/')
          case Some(sides) => sides
          case None => (rest, "tcp");
        if local == "" || container == "" || protocol == "" then Err(MalformedMapping)
        else
          match ParseRange(local)
          case Err(e) => Err(BadRange(e))
          case Ok(l) =>
            match ParseRange(container)
            case Err(e) => Err(BadRange(e))
            case Ok(c) => NewMapping(l, c, protocol)
  }

  // ----- written back

  function ShowNat(n: nat): string {
    if n < 10 then [(n + '0' as int) as char] else ShowNat(n / 10) + [(n % 10 + '0' as int) as char]
  }

  function ShowRange(r: PortRange): string {
    if r.first == r.last then ShowNat(r.first as int) else ShowNat(r.first as int) + "-" + ShowNat(r.last as int)
  }

  /** Writing a number and reading its digits are inverse. */
  lemma {:induction false} ShowNatReads(n: nat)
    ensures ShowNat(n) != "" && AllDigits(ShowNat(n)) && Digits(ShowNat(n), 0) == Some(n)
  {
    if n < 10 {
      DigitsAppend("", (n + '0' as int) as char, 0);
      assert "" + ShowNat(n) == ShowNat(n);
    } else {
      ShowNatReads(n / 10);
      DigitsAppend(ShowNat(n / 10), (n % 10 + '0' as int) as char, 0);
    }
  }

  lemma ShowNatParses(n: u16)
    ensures ParseU16(ShowNat(n as int)) == Some(n)
  {
    ShowNatReads(n as int);
  }

  /** Every valid range is read back from its text. */
  lemma RangeRoundTrip(r: PortRange)
    requires r.Valid()
    ensures ParseRange(ShowRange(r)) == Ok(r)
  {
    hide ParseU16, ShowNat;
    var first, last := ShowNat(r.first as int), ShowNat(r.last as int);
    ShowNatReads(r.first as int);
    ShowNatParses(r.first);
    ShowNatParses(r.last);
    if r.first == r.last {
      assert '-' !in first;
      assert SplitOnce(first, '-').None?;
    } else {
      SplitOnceAt(first, '-', last);
    }
  }

  lemma RangeText(r: PortRange)
    ensures ShowRange(r) != "" && ':' !in ShowRange(r) && '/' !in ShowRange(r)
  {
    ShowNatReads(r.first as int);
    ShowNatReads(r.last as int);
  }

  function ShowMapping(m: PortMapping): string {
    ShowRange(m.local) + ":" + (ShowRange(m.container) + "/" + m.protocol)
  }

  /** A mapping is read back from its text exactly when construction allows it and it names a protocol. */
  lemma MappingRoundTrip(m: PortMapping)
    requires m.local.Valid() && m.container.Valid()
    ensures ParseMapping(ShowMapping(m)) == Ok(m) <==> m.Valid() && m.protocol != ""
  {
    hide ShowRange, ParseRange;
    var local, container := ShowRange(m.local), ShowRange(m.container);
    RangeText(m.local);
    RangeText(m.container);
    SplitOnceAt(local, ':', container + "/" + m.protocol);
    SplitOnceAt(container, '/', m.protocol);
    RangeRoundTrip(m.local);
    RangeRoundTrip(m.container);
  }

  /** The protocol may be left out: it is then `tcp`. */
  lemma ProtocolDefaults(m: PortMapping)
    requires m.Valid() && m.protocol == "tcp"
    ensures ParseMapping(ShowRange(m.local) + ":" + ShowRange(m.container)) == Ok(m)
  {
    hide ShowRange, ParseRange;
    RangeText(m.local);
    RangeText(m.container);
    SplitOnceAt(ShowRange(m.local), ':', ShowRange(m.container));
    assert SplitOnce(ShowRange(m.container), '/').None?;
    RangeRoundTrip(m.local);
    RangeRoundTrip(m.container);
  }

  // ----- exactly which texts are read

  /** `digits`, at least one, denote `n`. */
  predicate Denotes(digits: string, n: u16) {
    digits != "" && AllDigits(digits) && DecimalValue(digits) == n as int
  }

  predicate SpellsPort(s: string, n: u16) {
    Denotes(s, n) || (s != "" && s[0] == '+' && Denotes(s[1..], n))
  }

  lemma PortReadExactly(s: string, n: u16)
    ensures ParseU16(s) == Some(n) <==> SpellsPort(s, n)
  {
    hide Digits, DecimalValue;
    var digits := if s != "" && s[0] == '+' then s[1..] else s;
    if AllDigits(digits) {
      DigitsOfDigits(digits);
    } else {
      DigitsOfOther(digits, 0);
    }
  }

  /** The text of a range: one port, or two around the first dash. */
  ghost predicate SpellsRange(text: string, r: PortRange) {
    || (r.first == r.last && SpellsPort(text, r.first))
    || exists a, b :: text == a + "-" + b && SpellsPort(a, r.first) && SpellsPort(b, r.last)
  }

  lemma PortHasNoDash(s: string, n: u16)
    requires SpellsPort(s, n)
    ensures '-' !in s
  {
    hide DecimalValue;
  }

  /** A text is read as a range exactly when it spells that range, positive and ascending. */
  lemma RangeReadExactly(text: string, r: PortRange)
    ensures ParseRange(text) == Ok(r) <==> r.Valid() && SpellsRange(text, r)
  {
    hide ParseU16, SpellsPort;
    match SplitOnce(text, '-')
    case None =>
      PortReadExactly(text, r.first);
      PortReadExactly(text, r.last);
    case Some((first, last)) =>
      PortReadExactly(first, r.first);
      PortReadExactly(last, r.last);
      SpelledAroundTheDash(text, r, first, last);
  }

  lemma SpelledAroundTheDash(text: string, r: PortRange, first: string, last: string)
    requires SplitOnce(text, '-') == Some((first, last))
    ensures SpellsRange(text, r) <==> SpellsPort(first, r.first) && SpellsPort(last, r.last)
  {
    hide SpellsPort;
    assert text == first + "-" + last;
    if SpellsPort(text, r.first) {
      PortHasNoDash(text, r.first);
    }
    forall a, b | text == a + "-" + b && SpellsPort(a, r.first) ensures a == first && b == last {
      PortHasNoDash(a, r.first);
      SplitOnceAt(a, '-', b);
    }
  }
}
