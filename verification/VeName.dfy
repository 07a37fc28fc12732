/** Names of ve interfaces: the old style slot.vlan and the new style slot, cpu, port, vlan. */
module VeName {
  import opened Options
  import opened Decimal

  datatype Style = Old | New
  datatype Ve = Ve(style: Style, slot: u32, cpu: char, port: u32, vlan: u32, vlan2: u32)

  // ---- parse_int_ve ----

  function Head(t: string): char { if t == "" then '\0' else t[0] }

  predicate Ends(t: string) { Head(t) == '\0' || Head(t) == '\n' }

  function ParseVlans(t: string, max: nat): Option<(u32, u32)> {
    var (v, r) := StrToUl(t, max);
    if Head(r) == '.' then
      var (w, q) := StrToUl(r[1..], max);
      if Ends(q) then Some((v, w)) else None
    else if Ends(r) then Some((v, 0))
    else None
  }

  function WithVlans(v: Ve, vlans: Option<(u32, u32)>): Option<Ve> {
    if vlans.None? then None else Some(v.(vlan := vlans.value.0, vlan2 := vlans.value.1))
  }

  function ParseVe(s: string, max: nat): Option<Ve> {
    if !IsDigit(Head(s)) then None else
      var (slot, r) := StrToUl(s, max);
      if Head(r) == '.' then WithVlans(Ve(Old, slot, 'f', 0, 0, 0), ParseVlans(r[1..], max))
      else if Head(r) == 'f' || Head(r) == 's' then ParsePort(slot, Head(r), r[1..], max)
      else None
  }

  function ParsePort(slot: u32, cpu: char, t: string, max: nat): Option<Ve> {
    var (port, q) := StrToUl(t, max);
    var v := Ve(New, slot, cpu, port, 0, 0);
    if Head(q) == '.' then WithVlans(v, ParseVlans(q[1..], max))
    else if Ends(q) then Some(v)
    else None
  }

  // ---- the name check_ve_interface prints ----

  function PrintSlot(slot: u32): string { if slot < 10 then "0" + Print(slot) else Print(slot) }

  function PrintVlan2(vlan2: u32): string { if vlan2 == 0 then "" else ['.'] + Print(vlan2) }

  function PrintVlans(vlan: u32, vlan2: u32): string { ['.'] + (Print(vlan) + PrintVlan2(vlan2)) }

  function PrintPort(cpu: char, port: u32, vlans: string): string { [cpu] + (Print(port) + vlans) }

  function PrintRest(v: Ve): string {
    if v.style.Old? then PrintPort('f', 1, PrintVlans(v.vlan, v.vlan2))
    else PrintPort(v.cpu, v.port, if v.vlan == 0 then "" else PrintVlans(v.vlan, v.vlan2))
  }

  // The name without its first two letters
  function PrintVe(v: Ve): string { PrintSlot(v.slot) + PrintRest(v) }

  // known tells which interfaces exist; None is a refusal.
  function CheckVe(name: string, known: string -> bool, max: nat): Option<string> {
    if !("ve" <= name) then Some(name)
    else
      var p := ParseVe(name[2..], max);
      if p.None? then None
      else if p.value.style.Old? && known(name) then Some(name)
      else
        var out := "ve" + PrintVe(p.value);
        if known(out) then Some(out) else None
  }

  // ---- parsing what was printed ----

  lemma VlansReadBack(vlan: u32, vlan2: u32, max: nat)
    requires Width(max)
    ensures ParseVlans(Print(vlan) + PrintVlan2(vlan2), max) == Some((vlan, vlan2))
  {
    StrToUlOfPrint(vlan, PrintVlan2(vlan2), max);
    if vlan2 != 0 {
      assert PrintVlan2(vlan2)[1..] == Print(vlan2) == Print(vlan2) + "";
      StrToUlOfPrint(vlan2, "", max);
    }
  }

  lemma PortReadsBack(slot: u32, cpu: char, port: u32, vlan: u32, vlan2: u32, max: nat)
    requires Width(max)
    ensures ParsePort(slot, cpu, Print(port) + PrintVlans(vlan, vlan2), max) == Some(Ve(New, slot, cpu, port, vlan, vlan2))
    ensures ParsePort(slot, cpu, Print(port) + "", max) == Some(Ve(New, slot, cpu, port, 0, 0))
  {
    var vlans := PrintVlans(vlan, vlan2);
    StrToUlOfPrint(port, vlans, max);
    assert vlans[1..] == Print(vlan) + PrintVlan2(vlan2);
    VlansReadBack(vlan, vlan2, max);
    StrToUlOfPrint(port, "", max);
  }

  lemma SlotReadsBack(slot: u32, cpu: char, t: string, max: nat)
    requires Width(max) && slot < 0x8000_0000 && (cpu == 'f' || cpu == 's')
    ensures ParseVe(PrintSlot(slot) + ([cpu] + t), max) == ParsePort(slot, cpu, t, max)
  {
    ValueOfPadded(slot);
    assert PrintSlot(slot) == Padded(slot);
    StrToUlOfNumeral(Padded(slot), slot, [cpu] + t, max);
    assert ([cpu] + t)[1..] == t;
    assert Head(Padded(slot) + ([cpu] + t)) == Padded(slot)[0];
  }

  lemma NewNameReadsBack(slot: u32, cpu: char, port: u32, vlan: u32, vlan2: u32, max: nat)
    requires Width(max) && slot < 0x8000_0000 && (cpu == 'f' || cpu == 's')
    ensures ParseVe(PrintSlot(slot) + PrintPort(cpu, port, PrintVlans(vlan, vlan2)), max)
            == Some(Ve(New, slot, cpu, port, vlan, vlan2))
    ensures ParseVe(PrintSlot(slot) + PrintPort(cpu, port, ""), max) == Some(Ve(New, slot, cpu, port, 0, 0))
  {
    PortReadsBack(slot, cpu, port, vlan, vlan2, max);
    SlotReadsBack(slot, cpu, Print(port) + PrintVlans(vlan, vlan2), max);
    SlotReadsBack(slot, cpu, Print(port) + "", max);
  }

  lemma HighSlotIsRefused(v: Ve, max: nat)
    requires v.slot >= 0x8000_0000
    ensures ParseVe(PrintVe(v), max).None?
  {
    assert PrintVe(v)[0] == Print(v.slot)[0] == '-';
  }

  // What the printed name stands for
  function Normal(v: Ve): Ve {
    if v.style.Old? then Ve(New, v.slot, 'f', 1, v.vlan, v.vlan2)
    else if v.vlan == 0 then v.(vlan2 := 0)
    else v
  }

  predicate Cpu(v: Ve) { v.cpu == 'f' || v.cpu == 's' }

  // Of either style: the printed name parses to cpu f port 1 for an old name, to itself for a
  // new one, except that a zero vlan loses the second one; unless the slot prints as negative.
  lemma PrintedNameParses(v: Ve, max: nat)
    requires Width(max) && Cpu(v)
    ensures ParseVe(PrintVe(v), max) == if v.slot < 0x8000_0000 then Some(Normal(v)) else None
  {
    if v.slot >= 0x8000_0000 {
      HighSlotIsRefused(v, max);
    } else {
      LowSlotParses(v, PrintVe(v), max);
    }
  }

  lemma LowSlotParses(v: Ve, t: string, max: nat)
    requires Width(max) && Cpu(v) && v.slot < 0x8000_0000 && t == PrintVe(v)
    ensures ParseVe(t, max) == Some(Normal(v))
  {
    var n := Normal(v);
    var full := PrintPort(n.cpu, n.port, PrintVlans(n.vlan, n.vlan2));
    assert PrintRest(v) == if v.style.New? && v.vlan == 0 then PrintPort(n.cpu, n.port, "") else full;
    NewNameReadsBack(n.slot, n.cpu, n.port, n.vlan, n.vlan2, max);
  }

  lemma RoundTripExactly(v: Ve, max: nat)
    requires Width(max) && Cpu(v) && v.style.New?
    ensures ParseVe(PrintVe(v), max) == Some(v) <==> v.slot < 0x8000_0000 && (v.vlan == 0 ==> v.vlan2 == 0)
  {
    PrintedNameParses(v, max);
  }

  lemma ParsedCpu(s: string, max: nat)
    requires ParseVe(s, max).Some?
    ensures Cpu(ParseVe(s, max).value)
  {}

  lemma NormalPrintsAlike(v: Ve)
    ensures PrintVe(Normal(v)) == PrintVe(v) <==> (v.style.Old? ==> v.vlan > 0)
  {
    var n := Normal(v);
    if v.style.Old? && v.vlan == 0 {
      assert |PrintRest(n)| < |PrintRest(v)|;
    }
  }

  // Normalising twice is normalising once, exactly if the slot does not print as negative and
  // an old name has a non-zero vlan.
  lemma IdempotentExactly(s: string, max: nat)
    requires Width(max) && ParseVe(s, max).Some?
    ensures var v := ParseVe(s, max).value;
            var again := ParseVe(PrintVe(v), max);
            (again.Some? && PrintVe(again.value) == PrintVe(v))
            <==> v.slot < 0x8000_0000 && (v.style.Old? ==> v.vlan > 0)
  {
    ParsedCpu(s, max);
    PrintedNameParses(ParseVe(s, max).value, max);
    NormalPrintsAlike(ParseVe(s, max).value);
  }

  // A name that was accepted and changed is accepted unchanged, under the same condition.
  lemma CheckIdempotentExactly(name: string, known: string -> bool, max: nat)
    requires Width(max) && CheckVe(name, known, max).Some? && "ve" <= name
    requires CheckVe(name, known, max).value != name
    ensures var v := ParseVe(name[2..], max).value;
            var out := CheckVe(name, known, max);
            CheckVe(out.value, known, max) == out <==> v.slot < 0x8000_0000 && (v.style.Old? ==> v.vlan > 0)
  {
    var v := ParseVe(name[2..], max).value;
    var out := "ve" + PrintVe(v);
    assert out[2..] == PrintVe(v);
    ParsedCpu(name[2..], max);
    PrintedNameParses(v, max);
    NormalPrintsAlike(v);
    if v.slot < 0x8000_0000 {
      var next := "ve" + PrintVe(Normal(v));
      assert next[2..] == PrintVe(Normal(v));
      assert next == out <==> PrintVe(Normal(v)) == PrintVe(v);
    }
  }

  // ---- the length of the printed name ----

  // The slot, which is never empty, is padded to two digits.
  predicate SlotGrows(s: string, max: nat) {
    (StrToUl(s, max).0 < 10 && Span(s, max) == 1) || Grows(s, max)
  }

  // The two vlans after a dot: both grow, there is a second one, and nothing follows.
  predicate VlansGrow(t: string, max: nat) {
    var (vlan, q) := StrToUl(t, max);
    Head(q) == '.' &&
    var (vlan2, rest) := StrToUl(q[1..], max);
    Grows(t, max) && Grows(q[1..], max) && vlan2 != 0 && rest == ""
  }

  // An old name all of whose fields grow
  predicate AllGrow(s: string, max: nat) {
    var (slot, r) := StrToUl(s, max);
    Head(r) == '.' && SlotGrows(s, max) && VlansGrow(r[1..], max)
  }

  lemma SlotGrowth(s: string, max: nat)
    requires Width(max) && s != "" && IsDigit(s[0])
    ensures |PrintSlot(StrToUl(s, max).0)| <= Span(s, max) + 1
    ensures |PrintSlot(StrToUl(s, max).0)| == Span(s, max) + 1 <==> SlotGrows(s, max)
  {
    FieldGrowth(s, max);
    FieldGrowsExactly(s, max);
    assert DigitCount(s) > 0 && SkipSpace(s) == s && Span(s, max) > 0;
  }

  lemma VlansGrowth(t: string, max: nat)
    requires Width(max) && ParseVlans(t, max).Some?
    ensures var (vlan, vlan2) := ParseVlans(t, max).value;
            && |PrintVlans(vlan, vlan2)| <= |t| + 3
            && (|PrintVlans(vlan, vlan2)| == |t| + 3 <==> VlansGrow(t, max))
  {
    FieldGrowth(t, max);
    FieldGrowsExactly(t, max);
    var (v, r) := StrToUl(t, max);
    if Head(r) == '.' {
      FieldGrowth(r[1..], max);
      FieldGrowsExactly(r[1..], max);
    }
  }

  lemma PortGrowth(slot: u32, cpu: char, t: string, max: nat)
    requires Width(max) && ParsePort(slot, cpu, t, max).Some?
    ensures |PrintRest(ParsePort(slot, cpu, t, max).value)| <= |t| + 4
  {
    FieldGrowth(t, max);
    var (port, q) := StrToUl(t, max);
    if Head(q) == '.' { VlansGrowth(q[1..], max); }
  }

  // Whatever the accepted text, the new name is at most five characters longer, and the
  // callers' buffer of four characters more suffices unless every field of an old name grows.
  lemma NameFitsExactly(s: string, max: nat)
    requires Width(max) && ParseVe(s, max).Some?
    ensures var v := ParseVe(s, max).value;
            && |PrintVe(v)| <= |s| + 5
            && (|PrintVe(v)| <= |s| + 4 <==> !AllGrow(s, max))
  {
    var (slot, r) := StrToUl(s, max);
    SlotGrowth(s, max);
    if Head(r) == '.' {
      VlansGrowth(r[1..], max);
      OldLength(ParseVe(s, max).value);
    } else {
      PortGrowth(slot, Head(r), r[1..], max);
    }
  }

  lemma OldLength(v: Ve)
    requires v.style.Old?
    ensures |PrintVe(v)| == |PrintSlot(v.slot)| + 2 + |PrintVlans(v.vlan, v.vlan2)|
  {
    assert |Print(1)| == 1;
  }

  predicate Low(v: Ve) {
    v.slot < 0x8000_0000 && v.port < 0x8000_0000 && v.vlan < 0x8000_0000 && v.vlan2 < 0x8000_0000
  }

  // In particular it suffices if no field prints as negative.
  lemma LowNameFits(s: string, max: nat)
    requires Width(max) && ParseVe(s, max).Some? && Low(ParseVe(s, max).value)
    ensures |PrintVe(ParseVe(s, max).value)| <= |s| + 4
  {
    NameFitsExactly(s, max);
    AllGrowIsHigh(s, max);
  }

  lemma AllGrowIsHigh(s: string, max: nat)
    requires Width(max) && ParseVe(s, max).Some?
    ensures AllGrow(s, max) ==> ParseVe(s, max).value.vlan2 >= 0x8000_0000
  {
    if AllGrow(s, max) {
      var q := StrToUl(StrToUl(s, max).1[1..], max).1;
      FieldGrowth(q[1..], max);
      assert Grows(q[1..], max) && ParseVe(s, max).value.vlan2 == StrToUl(q[1..], max).0;
    }
  }

  // ---- old names written with plain numerals ----

  function PlainVlans(vlan: u32, vlan2: u32): string { Dec(vlan) + (['.'] + (Dec(vlan2) + "")) }
  function PlainOld(slot: u32, vlan: u32, vlan2: u32): string { Dec(slot) + (['.'] + PlainVlans(vlan, vlan2)) }

  // Printed as a negative number, such a value takes one character more.
  predicate Wide(v: u32) { 0x8000_0000 <= v <= 3_294_967_296 }

  lemma PlainReads(v: u32, post: string, max: nat)
    requires Width(max) && NoDigitFirst(post)
    ensures StrToUl(Dec(v) + post, max) == (v, post)
  {
    ValueOfDec(v);
    StrToUlOfNumeral(Dec(v), v, post, max);
  }

  lemma PlainGrows(v: u32, post: string, max: nat)
    requires Width(max) && NoDigitFirst(post)
    ensures Grows(Dec(v) + post, max) <==> Wide(v)
    ensures Span(Dec(v) + post, max) == |Dec(v)|
  {
    PlainReads(v, post, max);
    FieldGrowsExactly(Dec(v) + post, max);
    if v >= 0x8000_0000 {
      TenDigits(v);
      TenDigits(U32 - v);
    }
  }

  lemma PlainVlansGrow(vlan: u32, vlan2: u32, max: nat)
    requires Width(max)
    ensures ParseVlans(PlainVlans(vlan, vlan2), max) == Some((vlan, vlan2))
    ensures VlansGrow(PlainVlans(vlan, vlan2), max) <==> Wide(vlan) && Wide(vlan2)
  {
    var r := ['.'] + (Dec(vlan2) + "");
    PlainReads(vlan, r, max);
    PlainGrows(vlan, r, max);
    assert r[1..] == Dec(vlan2) + "";
    PlainReads(vlan2, "", max);
    PlainGrows(vlan2, "", max);
  }

  lemma PlainSlotFitsExactly(slot: u32, t: string, max: nat)
    requires Width(max) && ParseVlans(t, max).Some?
    ensures var (s, vlans) := (Dec(slot) + (['.'] + t), ParseVlans(t, max).value);
            var v := ParseVe(s, max);
            && v == Some(Ve(Old, slot, 'f', 0, vlans.0, vlans.1))
            && (|PrintVe(v.value)| <= |s| + 4 <==> !((slot < 10 || Wide(slot)) && VlansGrow(t, max)))
  {
    var r := ['.'] + t;
    var s := Dec(slot) + r;
    PlainReads(slot, r, max);
    PlainGrows(slot, r, max);
    assert r[1..] == t && Head(s) == Dec(slot)[0];
    NameFitsExactly(s, max);
  }

  // The failing names among them: the slot is one digit or wide, and both vlans are wide.
  lemma PlainOldFitsExactly(slot: u32, vlan: u32, vlan2: u32, max: nat)
    requires Width(max)
    ensures var v := ParseVe(PlainOld(slot, vlan, vlan2), max);
            && v == Some(Ve(Old, slot, 'f', 0, vlan, vlan2))
            && (|PrintVe(v.value)| <= |PlainOld(slot, vlan, vlan2)| + 4
                <==> !((slot < 10 || Wide(slot)) && Wide(vlan) && Wide(vlan2)))
  {
    PlainVlansGrow(vlan, vlan2, max);
    PlainSlotFitsExactly(slot, PlainVlans(vlan, vlan2), max);
  }

  function EmptyAndPlain(vlan2: u32): string { ['.'] + (Dec(vlan2) + "") }

  lemma EmptyVlanGrows(vlan2: u32, max: nat)
    requires Width(max)
    ensures ParseVlans(EmptyAndPlain(vlan2), max) == Some((0, vlan2))
    ensures VlansGrow(EmptyAndPlain(vlan2), max) <==> Wide(vlan2)
  {
    var q := EmptyAndPlain(vlan2);
    NothingReads(q, max);
    assert q[1..] == Dec(vlan2) + "";
    PlainReads(vlan2, "", max);
    PlainGrows(vlan2, "", max);
  }

  lemma NothingReads(t: string, max: nat)
    requires Head(t) == '.'
    ensures StrToUl(t, max) == (0, t) && Grows(t, max)
  {
    assert SkipSpace(t) == t && DigitCount(t) == 0;
  }

  // With an empty first vlan, as in 0..3000000000, one wide field is enough.
  lemma EmptyVlanFitsExactly(slot: u32, vlan2: u32, max: nat)
    requires Width(max)
    ensures var s := Dec(slot) + (['.'] + EmptyAndPlain(vlan2));
            var v := ParseVe(s, max);
            && v == Some(Ve(Old, slot, 'f', 0, 0, vlan2))
            && (|PrintVe(v.value)| <= |s| + 4 <==> !((slot < 10 || Wide(slot)) && Wide(vlan2)))
  {
    EmptyVlanGrows(vlan2, max);
    PlainSlotFitsExactly(slot, EmptyAndPlain(vlan2), max);
  }
}
