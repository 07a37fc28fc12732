/** The names that are accepted, as a grammar, and what check_ve_interface makes of them. */
module VeGrammar {
  import opened Options
  import opened Decimal
  import opened VeName

  // ---- fields, as strtoul reads them ----

  datatype Field = Empty | Number(spaces: string, sign: string, digits: string)

  predicate AllSpaces(t: string) { forall i :: 0 <= i < |t| ==> IsSpace(t[i]) }

  predicate Proper(f: Field) {
    f.Number? ==> AllSpaces(f.spaces) && (f.sign == "" || f.sign == "+" || f.sign == "-") && f.digits != "" && AllDigits(f.digits)
  }

  function Text(f: Field): string { if f.Empty? then "" else f.spaces + (f.sign + f.digits) }

  function Worth(f: Field, max: nat): u32
    requires Proper(f)
  {
    if f.Empty? then 0 else Convert(f.sign == "-", Value(f.digits), max)
  }

  // The field that a text starts with
  function FieldOf(t: string): (f: Field)
    ensures f.Number? ==> f.digits != "" && AllDigits(f.digits)
  {
    SkipSpaceShortens(t);
    var u := SkipSpace(t);
    var w := if Signed(u) then u[1..] else u;
    var k := DigitCount(w);
    if k == 0 then Empty else Number(t[..|t| - |u|], if Signed(u) then u[..1] else "", w[..k])
  }

  lemma {:induction false} SkipSpaceSplits(t: string)
    ensures |SkipSpace(t)| <= |t|
    ensures var n := |t| - |SkipSpace(t)|; AllSpaces(t[..n]) && t[n..] == SkipSpace(t)
  {
    if t != "" && IsSpace(t[0]) {
      SkipSpaceSplits(t[1..]);
      var n := |t| - |SkipSpace(t)|;
      assert t[..n] == [t[0]] + t[1..][..n - 1] && t[n..] == t[1..][n - 1..];
    }
  }

  // Reading a text takes exactly its field, with the field's worth.
  lemma FieldIsRead(t: string, max: nat)
    ensures var (f, rest) := (FieldOf(t), StrToUl(t, max).1);
            && Proper(f) && t == Text(f) + rest && StrToUl(t, max).0 == Worth(f, max)
            && (f.Number? ==> NoDigitFirst(rest)) && (f.Empty? ==> rest == t)
  {
    SkipSpaceSplits(t);
    var u, n := SkipSpace(t), |t| - |SkipSpace(t)|;
    var sign := if Signed(u) then u[..1] else "";
    var w := if Signed(u) then u[1..] else u;
    var k := DigitCount(w);
    if k > 0 {
      assert FieldOf(t) == Number(t[..n], sign, w[..k]) && StrToUl(t, max).1 == w[k..];
      SignSplits(u);
      Parts(t, n, u, sign, w, k);
    }
  }

  lemma SignSplits(u: string)
    ensures var sign := if Signed(u) then u[..1] else "";
            && (sign == "" || sign == "+" || sign == "-") && (sign == "-" <==> Signed(u) && u[0] == '-')
            && u == sign + if Signed(u) then u[1..] else u
  { }

  lemma Parts(t: string, n: nat, u: string, sign: string, w: string, k: nat)
    requires n <= |t| && t[n..] == u && k <= |w| && (k < |w| ==> !IsDigit(w[k])) && u == sign + w
    ensures t == (t[..n] + (sign + w[..k])) + w[k..] && NoDigitFirst(w[k..])
  {
    Halves(t, n);
    Halves(w, k);
    Regroup(t[..n], sign, w[..k], w[k..]);
  }

  lemma Halves(t: string, n: nat)
    requires n <= |t|
    ensures t == t[..n] + t[n..] && (n < |t| ==> t[n..] != "" && t[n..][0] == t[n])
  { }

  lemma Regroup(a: string, b: string, c: string, d: string)
    ensures a + (b + (c + d)) == (a + (b + c)) + d
  { }

  lemma {:induction false} SkipSpaces(spaces: string, x: string)
    requires AllSpaces(spaces) && (x == "" || !IsSpace(x[0]))
    ensures SkipSpace(spaces + x) == x
  {
    if spaces == "" {
      assert spaces + x == x;
    } else {
      assert (spaces + x)[1..] == spaces[1..] + x;
      SkipSpaces(spaces[1..], x);
    }
  }

  // A field is read back in front of anything that does not go on with it.
  lemma FieldReads(f: Field, post: string, max: nat)
    requires Proper(f) && NoDigitFirst(post) && (f.Empty? ==> FieldOf(post).Empty?)
    ensures StrToUl(Text(f) + post, max) == (Worth(f, max), post)
  {
    if f.Empty? {
      assert Text(f) + post == post;
      FieldIsRead(post, max);
    } else {
      NumberReads(f, post, max);
    }
  }

  lemma NumberReads(f: Field, post: string, max: nat)
    requires Proper(f) && f.Number? && NoDigitFirst(post)
    ensures StrToUl(Text(f) + post, max) == (Worth(f, max), post)
  {
    var w, u := f.digits + post, f.sign + (f.digits + post);
    assert Text(f) + post == f.spaces + u;
    assert u[0] == if f.sign == "" then f.digits[0] else f.sign[0];
    SkipSpaces(f.spaces, u);
    assert Signed(u) <==> f.sign != "";
    assert f.sign != "" ==> u[1..] == w;
    assert f.sign == "" ==> u == w;
    CountOf(f.digits, post);
    assert w[..|f.digits|] == f.digits && w[|f.digits|..] == post;
  }

  // ---- names ----

  // What follows the first dot: one or two vlans, and a tail that is empty or starts with a
  // newline or a null character
  datatype Vlans = One(vlan: Field, tail: string) | Two(vlan: Field, vlan2: Field, tail: string)

  // A last field and the tail after it
  predicate Closes(f: Field, tail: string) { Proper(f) && Ends(tail) && (f.Empty? ==> FieldOf(tail).Empty?) }

  predicate ProperVlans(v: Vlans) {
    match v
    case One(vlan, tail) => Closes(vlan, tail)
    case Two(vlan, vlan2, tail) => Proper(vlan) && Closes(vlan2, tail)
  }

  function VlansText(v: Vlans): string {
    match v
    case One(vlan, tail) => Text(vlan) + tail
    case Two(vlan, vlan2, tail) => Text(vlan) + (['.'] + (Text(vlan2) + tail))
  }

  function VlansWorth(v: Vlans, max: nat): (u32, u32)
    requires ProperVlans(v)
  {
    (Worth(v.vlan, max), if v.One? then 0 else Worth(v.vlan2, max))
  }

  lemma DotReads(f: Field, rest: string, max: nat)
    requires Proper(f)
    ensures StrToUl(Text(f) + (['.'] + rest), max) == (Worth(f, max), ['.'] + rest)
  {
    var post := ['.'] + rest;
    NothingReads(post, max);
    assert SkipSpace(post) == post && DigitCount(post) == 0;
    FieldReads(f, post, max);
  }

  lemma VlansComplete(v: Vlans, max: nat)
    requires ProperVlans(v)
    ensures ParseVlans(VlansText(v), max) == Some(VlansWorth(v, max))
  {
    match v
    case One(vlan, tail) => FieldReads(vlan, tail, max);
    case Two(vlan, vlan2, tail) =>
      DotReads(vlan, Text(vlan2) + tail, max);
      FieldReads(vlan2, tail, max);
      assert (['.'] + (Text(vlan2) + tail))[1..] == Text(vlan2) + tail;
  }

  lemma VlansSound(t: string, max: nat) returns (v: Vlans)
    requires ParseVlans(t, max).Some?
    ensures ProperVlans(v) && VlansText(v) == t && VlansWorth(v, max) == ParseVlans(t, max).value
  {
    var r := StrToUl(t, max).1;
    FieldIsRead(t, max);
    if Head(r) == '.' {
      var q := StrToUl(r[1..], max).1;
      FieldIsRead(r[1..], max);
      v := Two(FieldOf(t), FieldOf(r[1..]), q);
      Halves(r, 1);
      assert r[..1] == ['.'];
    } else {
      v := One(FieldOf(t), r);
    }
  }

  // What follows the cpu letter: a port, and vlans if there is a dot
  datatype Ports = Bare(port: Field, tail: string) | Dotted(port: Field, vlans: Vlans)

  predicate ProperPorts(p: Ports) {
    if p.Bare? then Closes(p.port, p.tail) else Proper(p.port) && ProperVlans(p.vlans)
  }

  function PortsText(p: Ports): string {
    if p.Bare? then Text(p.port) + p.tail else Text(p.port) + (['.'] + VlansText(p.vlans))
  }

  function PortsWorth(slot: u32, cpu: char, p: Ports, max: nat): Ve
    requires ProperPorts(p)
  {
    var (vlan, vlan2) := if p.Bare? then (0, 0) else VlansWorth(p.vlans, max);
    Ve(New, slot, cpu, Worth(p.port, max), vlan, vlan2)
  }

  lemma PortsComplete(slot: u32, cpu: char, p: Ports, max: nat)
    requires ProperPorts(p)
    ensures ParsePort(slot, cpu, PortsText(p), max) == Some(PortsWorth(slot, cpu, p, max))
  {
    if p.Bare? {
      FieldReads(p.port, p.tail, max);
    } else {
      var rest := ['.'] + VlansText(p.vlans);
      DotReads(p.port, VlansText(p.vlans), max);
      assert rest[1..] == VlansText(p.vlans);
      VlansComplete(p.vlans, max);
    }
  }

  lemma PortsSound(slot: u32, cpu: char, t: string, max: nat) returns (p: Ports)
    requires ParsePort(slot, cpu, t, max).Some?
    ensures ProperPorts(p) && PortsText(p) == t && PortsWorth(slot, cpu, p, max) == ParsePort(slot, cpu, t, max).value
  {
    var q := StrToUl(t, max).1;
    FieldIsRead(t, max);
    if Head(q) == '.' {
      var vlans := VlansSound(q[1..], max);
      Halves(q, 1);
      assert q[..1] == ['.'];
      p := Dotted(FieldOf(t), vlans);
    } else {
      p := Bare(FieldOf(t), q);
    }
  }

  // A name without its first two letters
  datatype Name = OldName(slot: string, vlans: Vlans) | NewName(slot: string, cpu: char, ports: Ports)

  predicate ProperName(n: Name) {
    && n.slot != "" && AllDigits(n.slot)
    && (n.OldName? ==> ProperVlans(n.vlans))
    && (n.NewName? ==> (n.cpu == 'f' || n.cpu == 's') && ProperPorts(n.ports))
  }

  function NameText(n: Name): string {
    if n.OldName? then n.slot + (['.'] + VlansText(n.vlans)) else n.slot + ([n.cpu] + PortsText(n.ports))
  }

  function NameWorth(n: Name, max: nat): Ve
    requires ProperName(n)
  {
    var slot := Convert(false, Value(n.slot), max);
    if n.OldName? then Ve(Old, slot, 'f', 0, VlansWorth(n.vlans, max).0, VlansWorth(n.vlans, max).1)
    else PortsWorth(slot, n.cpu, n.ports, max)
  }

  // Every name of the grammar is accepted, with its fields.
  lemma GrammarIsAccepted(n: Name, max: nat)
    requires ProperName(n)
    ensures ParseVe(NameText(n), max) == Some(NameWorth(n, max))
  {
    var slot := Convert(false, Value(n.slot), max);
    if n.OldName? {
      SlotIsRead(n.slot, '.', VlansText(n.vlans), max);
      VlansComplete(n.vlans, max);
    } else {
      SlotIsRead(n.slot, n.cpu, PortsText(n.ports), max);
      PortsComplete(slot, n.cpu, n.ports, max);
    }
  }

  lemma SlotIsRead(slot: string, c: char, rest: string, max: nat)
    requires slot != "" && AllDigits(slot) && !IsDigit(c)
    ensures var s := slot + ([c] + rest);
            && IsDigit(Head(s)) && StrToUl(s, max) == (Convert(false, Value(slot), max), [c] + rest)
            && ([c] + rest)[1..] == rest && Head([c] + rest) == c
  {
    StrToUlOfDigits(slot, [c] + rest, max);
    assert (slot + ([c] + rest))[0] == slot[0];
  }

  // And every accepted name is one of the grammar.
  lemma AcceptedIsGrammar(s: string, max: nat) returns (n: Name)
    requires ParseVe(s, max).Some?
    ensures ProperName(n) && NameText(n) == s && NameWorth(n, max) == ParseVe(s, max).value
  {
    var (v, r) := StrToUl(s, max);
    var slot := SlotIsDigits(s, max);
    Halves(r, 1);
    assert r[..1] == [Head(r)];
    if Head(r) == '.' {
      var vlans := VlansSound(r[1..], max);
      n := OldName(slot, vlans);
    } else {
      var ports := PortsSound(v, Head(r), r[1..], max);
      n := NewName(slot, Head(r), ports);
    }
  }

  lemma SlotIsDigits(s: string, max: nat) returns (slot: string)
    requires IsDigit(Head(s))
    ensures slot != "" && AllDigits(slot) && s == slot + StrToUl(s, max).1
    ensures StrToUl(s, max).0 == Convert(false, Value(slot), max)
  {
    assert SkipSpace(s) == s && !Signed(s);
    slot := s[..DigitCount(s)];
    Halves(s, DigitCount(s));
  }

  ghost predicate InGrammar(s: string) { exists n :: ProperName(n) && NameText(n) == s }

  // A text is accepted exactly if it is a name of the grammar.
  lemma AcceptedExactly(s: string, max: nat)
    ensures ParseVe(s, max).Some? <==> InGrammar(s)
  {
    if ParseVe(s, max).Some? {
      var n := AcceptedIsGrammar(s, max);
    }
    if InGrammar(s) {
      var n :| ProperName(n) && NameText(n) == s;
      GrammarIsAccepted(n, max);
    }
  }

  // ---- check_ve_interface ----

  // The name of the new style that an accepted name stands for
  function Standard(n: Name, max: nat): string
    requires ProperName(n)
  {
    "ve" + PrintVe(NameWorth(n, max))
  }

  // What comes back: a name that does not start with ve, unchanged; an old name that exists,
  // unchanged; otherwise the standard name, if that exists. Everything else is refused.
  lemma CheckDecides(name: string, known: string -> bool, max: nat)
    ensures var r := CheckVe(name, known, max);
            if !("ve" <= name) then r == Some(name)
            else if !InGrammar(name[2..]) then r == None
            else
              forall n :: ProperName(n) && NameText(n) == name[2..] ==>
                r == (if n.OldName? && known(name) then Some(name)
                      else if known(Standard(n, max)) then Some(Standard(n, max)) else None)
  {
    if "ve" <= name {
      AcceptedExactly(name[2..], max);
      forall n | ProperName(n) && NameText(n) == name[2..]
        ensures ParseVe(name[2..], max) == Some(NameWorth(n, max))
      {
        GrammarIsAccepted(n, max);
      }
    }
  }
}
