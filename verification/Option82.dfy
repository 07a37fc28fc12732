/**
  Options of a DHCP message (RFC 2132) and the insertion of the relay agent information
  option, code 82 (RFC 3046), by a walk whose offset is one byte wide.
*/
module Option82 {
  import opened Options

  type byte = x: int | 0 <= x < 256

  const END: byte := 255
  const RELAY: byte := 82

  // ---- RFC 2132 ----

  datatype Item = Pad | Opt(code: byte, data: seq<byte>)

  // The items before the End option, and the offset of End.
  datatype Parsed = Bad | Good(items: seq<Item>, end: nat)

  predicate PadFree(items: seq<Item>) { forall k :: 0 <= k < |items| ==> items[k].Opt? }

  // Where the item at an offset ends; past the tail if it is cut short.
  function Past(a: seq<byte>, off: nat): (n: nat)
    requires off < |a|
    ensures n > off && (a[off] != 0 ==> n >= off + 2)
  {
    if a[off] == 0 then off + 1 else if off + 1 < |a| then off + 2 + (a[off + 1] as int) else off + 2
  }

  function ItemAt(a: seq<byte>, off: nat): (i: Item)
    requires off < |a| && Past(a, off) <= |a|
  {
    if a[off] == 0 then Pad else Opt(a[off], a[off + 2..Past(a, off)])
  }

  function ParseAt(a: seq<byte>, off: nat): (r: Parsed)
    ensures r.Good? ==> off <= r.end < |a| && a[r.end] == END
    decreases |a| - off
  {
    if off >= |a| then Bad
    else if a[off] == END then Good([], off)
    else if Past(a, off) > |a| then Bad
    else
      var rest := ParseAt(a, Past(a, off));
      if rest.Bad? then Bad else Good([ItemAt(a, off)] + rest.items, rest.end)
  }

  function Parse(a: seq<byte>): Parsed { ParseAt(a, 0) }

  // If b repeats a up to a's End and parses from there, it parses from the start.
  lemma {:induction false} ParseExtends(a: seq<byte>, b: seq<byte>, off: nat)
    requires ParseAt(a, off).Good?
    requires ParseAt(a, off).end <= |b| && forall i :: off <= i < ParseAt(a, off).end ==> b[i] == a[i]
    requires ParseAt(b, ParseAt(a, off).end).Good?
    ensures var next := ParseAt(b, ParseAt(a, off).end);
            ParseAt(b, off) == Good(ParseAt(a, off).items + next.items, next.end)
    decreases |a| - off
  {
    if a[off] == END {
      assert [] + ParseAt(b, off).items == ParseAt(b, off).items;
    } else {
      var n := Past(a, off);
      SameBytesSameItem(a, b, off);
      ParseExtends(a, b, n);
      Regroup(ItemAt(a, off), ParseAt(a, n).items, ParseAt(b, ParseAt(a, off).end).items);
    }
  }

  lemma Regroup(i: Item, r: seq<Item>, s: seq<Item>)
    ensures [i] + (r + s) == [i] + r + s
  {}

  lemma SameBytesSameItem(a: seq<byte>, b: seq<byte>, off: nat)
    requires off < |a| && Past(a, off) <= |a| && Past(a, off) <= |b|
    requires forall i :: off <= i < Past(a, off) ==> b[i] == a[i]
    ensures Past(b, off) == Past(a, off) && ItemAt(b, off) == ItemAt(a, off)
  {
    if a[off] != 0 { assert b[off + 2..Past(a, off)] == a[off + 2..Past(a, off)]; }
  }

  // Areas with the same items have the same bytes up to the shorter one's End.
  lemma {:induction false} SameItemsSameBytes(a: seq<byte>, b: seq<byte>, off: nat, more: seq<Item>)
    requires ParseAt(a, off).Good? && ParseAt(b, off).Good?
    requires ParseAt(b, off).items == ParseAt(a, off).items + more
    ensures ParseAt(a, off).end <= |b| && forall i :: off <= i < ParseAt(a, off).end ==> b[i] == a[i]
    ensures ParseAt(b, ParseAt(a, off).end).Good? && ParseAt(b, ParseAt(a, off).end).items == more
    decreases |a| - off
  {
    if a[off] == END {
      assert [] + more == more;
    } else {
      var i, j := ItemAt(a, off), ItemAt(b, off);
      var r, s := ParseAt(a, Past(a, off)), ParseAt(b, Past(b, off));
      assert ParseAt(a, off).items[0] == i && (ParseAt(a, off).items + more)[0] == i && ParseAt(b, off).items[0] == j;
      SameItemSameBytes(a, b, off);
      assert s.items == ParseAt(b, off).items[1..] == (ParseAt(a, off).items + more)[1..] == r.items + more;
      SameItemsSameBytes(a, b, Past(a, off), more);
    }
  }

  lemma SameItemSameBytes(a: seq<byte>, b: seq<byte>, off: nat)
    requires off < |a| && off < |b| && Past(a, off) <= |a| && Past(b, off) <= |b|
    requires ItemAt(a, off) == ItemAt(b, off)
    ensures Past(a, off) == Past(b, off)
    ensures forall i :: off <= i < Past(a, off) ==> b[i] == a[i]
  {
    if a[off] != 0 {
      var x, y := a[off + 2..Past(a, off)], b[off + 2..Past(b, off)];
      assert x == y && |x| == a[off + 1] && |y| == b[off + 1];
      forall i | off + 2 <= i < Past(a, off) ensures b[i] == a[i] { assert x[i - off - 2] == y[i - off - 2]; }
    }
  }

  // ---- dhcp_get_option ----

  datatype Move = Stop(result: Option<nat>) | Go(offset: nat)

  // One turn of the loop. An option code in the last byte before the tail is refused
  // whatever the byte after it holds.
  function Next(a: seq<byte>, op: byte, off: nat): Move {
    if off >= |a| then Stop(None)
    else if a[off] == END then Stop(if op == END then Some(off) else None)
    else if off + 1 >= |a| || off + a[off + 1] + 2 > |a| then Stop(None)
    else if a[off] == op then Stop(Some(off))
    else Go((off + a[off + 1] + 2) % 256)
  }

  function Walk(a: seq<byte>, op: byte, off: nat, turns: nat): Move
    decreases turns
  {
    var m := Next(a, op, off);
    if m.Stop? || turns == 0 then m else Walk(a, op, m.offset, turns - 1)
  }

  ghost predicate Returns(a: seq<byte>, op: byte, r: Option<nat>) {
    exists n: nat :: Walk(a, op, 0, n) == Stop(r)
  }

  ghost predicate Terminates(a: seq<byte>, op: byte) { exists n: nat :: Walk(a, op, 0, n).Stop? }

  lemma {:induction false} WalkIsStable(a: seq<byte>, op: byte, off: nat, n: nat, m: nat)
    requires Walk(a, op, off, n).Stop? && n <= m
    ensures Walk(a, op, off, m) == Walk(a, op, off, n)
    decreases n
  {
    if Next(a, op, off).Go? { WalkIsStable(a, op, Next(a, op, off).offset, n - 1, m - 1); }
  }

  lemma ReturnsOnce(a: seq<byte>, op: byte, r: Option<nat>, s: Option<nat>)
    requires Returns(a, op, r) && Returns(a, op, s)
    ensures r == s
  {
    var n: nat :| Walk(a, op, 0, n) == Stop(r);
    var m: nat :| Walk(a, op, 0, m) == Stop(s);
    WalkIsStable(a, op, 0, n, n + m);
    WalkIsStable(a, op, 0, m, n + m);
  }

  lemma {:induction false} FoundIsByteWide(a: seq<byte>, off: nat, n: nat)
    requires off < 256 && Walk(a, END, off, n).Stop? && Walk(a, END, off, n).result.Some?
    ensures var r := Walk(a, END, off, n).result.value;
            r < 256 && r < |a| && a[r] == END
    decreases n
  {
    if Next(a, END, off).Go? { FoundIsByteWide(a, Next(a, END, off).offset, n - 1); }
  }

  lemma LateIsNotFound(a: seq<byte>, e: nat)
    requires e > 255
    ensures !Returns(a, END, Some(e))
  {
    forall n: nat ensures Walk(a, END, 0, n) != Stop(Some(e)) {
      if Walk(a, END, 0, n) == Stop(Some(e)) { FoundIsByteWide(a, 0, n); }
    }
  }

  lemma NextIsPast(a: seq<byte>, off: nat)
    requires off < |a| && a[off] != 0 && a[off] != END && Past(a, off) <= |a| && Past(a, off) < 256
    ensures Next(a, END, off) == Go(Past(a, off))
  { }

  lemma {:induction false} WalkReachesEnd(a: seq<byte>, off: nat)
    requires ParseAt(a, off).Good? && PadFree(ParseAt(a, off).items) && ParseAt(a, off).end < 256
    ensures Walk(a, END, off, |ParseAt(a, off).items|) == Stop(Some(ParseAt(a, off).end))
    decreases |a| - off
  {
    if a[off] != END {
      var items, rest := ParseAt(a, off).items, ParseAt(a, Past(a, off)).items;
      assert items[0].Opt? && items[1..] == rest;
      NextIsPast(a, off);
      WalkReachesEnd(a, Past(a, off));
    }
  }

  // Over a Pad-free area the walk returns the offset of End exactly if it fits one byte.
  lemma EndIsFoundExactly(a: seq<byte>)
    requires Parse(a).Good? && PadFree(Parse(a).items)
    ensures Returns(a, END, Some(Parse(a).end)) <==> Parse(a).end <= 255
  {
    if Parse(a).end <= 255 {
      WalkReachesEnd(a, 0);
    } else {
      LateIsNotFound(a, Parse(a).end);
    }
  }

  // Where the first item with that code stands, before End
  function FirstOf(a: seq<byte>, off: nat, op: byte): (r: Option<nat>)
    requires ParseAt(a, off).Good?
    ensures r.Some? ==> off <= r.value < ParseAt(a, off).end && a[r.value] == op
    decreases |a| - off
  {
    if a[off] == END then None else if a[off] == op then Some(off) else FirstOf(a, Past(a, off), op)
  }

  ghost predicate HasCode(items: seq<Item>, op: byte) {
    exists k :: 0 <= k < |items| && items[k].Opt? && items[k].code == op
  }

  lemma {:induction false} FirstOfExactly(a: seq<byte>, off: nat, op: byte)
    requires ParseAt(a, off).Good? && op != END && op != 0
    ensures FirstOf(a, off, op).Some? <==> HasCode(ParseAt(a, off).items, op)
    decreases |a| - off
  {
    if a[off] != END {
      FirstOfExactly(a, Past(a, off), op);
      PrependedCode(ItemAt(a, off), ParseAt(a, Past(a, off)).items, op);
    }
  }

  lemma PrependedCode(i: Item, rest: seq<Item>, op: byte)
    ensures HasCode([i] + rest, op) <==> (i.Opt? && i.code == op) || HasCode(rest, op)
  {
    var items := [i] + rest;
    assert items[0] == i && forall k :: 0 <= k < |rest| ==> items[k + 1] == rest[k];
  }

  lemma {:induction false} WalkFindsFirst(a: seq<byte>, off: nat, op: byte)
    requires ParseAt(a, off).Good? && PadFree(ParseAt(a, off).items) && ParseAt(a, off).end < 256 && op != END && op != 0
    ensures Walk(a, op, off, |ParseAt(a, off).items|) == Stop(FirstOf(a, off, op))
    decreases |a| - off
  {
    if a[off] != END && a[off] != op {
      var items, rest := ParseAt(a, off).items, ParseAt(a, Past(a, off)).items;
      assert items[0] == ItemAt(a, off) && items[1..] == rest;
      assert Next(a, op, off) == Go(Past(a, off));
      WalkFindsFirst(a, Past(a, off), op);
    } else if a[off] != END {
      assert ParseAt(a, off).items[0] == ItemAt(a, off);
    }
  }

  // The walk for any other code: over a Pad-free area whose End fits a byte it returns the
  // first option of that code, and none exactly if the message has none.
  lemma OptionIsFoundExactly(a: seq<byte>, op: byte)
    requires Parse(a).Good? && PadFree(Parse(a).items) && Parse(a).end <= 255 && op != END && op != 0
    ensures Returns(a, op, FirstOf(a, 0, op))
    ensures FirstOf(a, 0, op).Some? <==> HasCode(Parse(a).items, op)
  {
    WalkFindsFirst(a, 0, op);
    FirstOfExactly(a, 0, op);
  }

  // An option of length 254 at the front sends the offset back to zero, for ever.
  lemma {:induction false} WrapNeverStops(a: seq<byte>, n: nat)
    requires |a| >= 256 && a[0] != END && a[1] == 254
    ensures Walk(a, END, 0, n) == Go(0)
  {
    if n > 0 { WrapNeverStops(a, n - 1); }
  }

  // Such an area may well parse, with its End beyond the reach of the walk.
  lemma SomeParsedAreaHangs(data: seq<byte>)
    requires |data| == 254
    ensures var a := [12, 254] + data + [END];
            Parse(a) == Good([Opt(12, data)], 256) && !Terminates(a, END)
  {
    var a: seq<byte> := [12, 254] + data + [END];
    assert a[2..256] == data && ParseAt(a, 256) == Good([], 256);
    forall n: nat ensures Walk(a, END, 0, n) == Go(0) { WrapNeverStops(a, n); }
  }

  // The offset after so many turns, if all of them go on.
  ghost predicate Reaches(a: seq<byte>, op: byte, off: nat, n: nat, to: nat)
    decreases n
  {
    if n == 0 then off == to
    else Next(a, op, off).Go? && Reaches(a, op, Next(a, op, off).offset, n - 1, to)
  }

  lemma {:induction false} WalkJoins(a: seq<byte>, op: byte, off: nat, n: nat, to: nat, m: nat)
    requires Reaches(a, op, off, n, to)
    ensures Walk(a, op, off, n + m) == Walk(a, op, to, m)
    decreases n
  {
    if n > 0 { WalkJoins(a, op, Next(a, op, off).offset, n - 1, to, m); }
  }

  // What the walk returns when it starts at some offset
  ghost predicate ReturnsFrom(a: seq<byte>, off: nat, r: Option<nat>) {
    exists n: nat :: Walk(a, END, off, n) == Stop(r)
  }

  // A walk that gets to an offset returns what a walk from there returns.
  lemma ReachedReturns(a: seq<byte>, n: nat, to: nat, r: Option<nat>)
    requires Reaches(a, END, 0, n, to)
    ensures Returns(a, END, r) <==> ReturnsFrom(a, to, r)
  {
    if Returns(a, END, r) {
      var m: nat :| Walk(a, END, 0, m) == Stop(r);
      WalkIsStable(a, END, 0, m, n + m);
      WalkJoins(a, END, 0, n, to, m);
    }
    if ReturnsFrom(a, to, r) {
      var m: nat :| Walk(a, END, to, m) == Stop(r);
      WalkJoins(a, END, 0, n, to, m);
    }
  }

  // ---- Pads ----

  // Where the first Pad of a parsed area stands; End if there is none.
  function FirstPad(a: seq<byte>, off: nat): (p: nat)
    requires ParseAt(a, off).Good?
    ensures off <= p <= ParseAt(a, off).end && (a[p] == 0 || p == ParseAt(a, off).end)
    ensures ParseAt(a, p).Good? && ParseAt(a, p).end == ParseAt(a, off).end
    decreases |a| - off
  {
    if a[off] == END || a[off] == 0 then off else FirstPad(a, Past(a, off))
  }

  lemma {:induction false} WalkReachesPad(a: seq<byte>, off: nat) returns (n: nat)
    requires ParseAt(a, off).Good? && FirstPad(a, off) < 256
    ensures Reaches(a, END, off, n, FirstPad(a, off))
    decreases |a| - off
  {
    if a[off] == END || a[off] == 0 {
      n := 0;
    } else {
      NextIsPast(a, off);
      n := WalkReachesPad(a, Past(a, off));
      n := n + 1;
    }
  }

  // Where the walk goes on after the first Pad, which it reads as an option whose length is
  // the byte behind it.
  function AfterPad(a: seq<byte>, p: nat): nat
    requires p + 1 < |a|
  {
    p + 2 + (a[p + 1] as int)
  }

  // With a Pad anywhere, the walk refuses at the first one exactly if the supposed option
  // does not fit; otherwise it returns what it returns from the wrapped offset behind it.
  lemma FirstPadDecides(a: seq<byte>, p: nat, r: Option<nat>)
    requires Parse(a).Good? && p == FirstPad(a, 0) < 256 && a[p] == 0
    ensures p + 1 < |a|
    ensures Returns(a, END, r) <==> if AfterPad(a, p) > |a| then r == None else ReturnsFrom(a, AfterPad(a, p) % 256, r)
  {
    var n := WalkReachesPad(a, 0);
    ReachedReturns(a, n, p, r);
    PadReturns(a, p, r);
  }

  lemma PadReturns(a: seq<byte>, p: nat, r: Option<nat>)
    requires p + 1 < |a| && a[p] == 0
    ensures ReturnsFrom(a, p, r) <==> if AfterPad(a, p) > |a| then r == None else ReturnsFrom(a, AfterPad(a, p) % 256, r)
  {
    assert Next(a, END, p) == if AfterPad(a, p) > |a| then Stop(None) else Go(AfterPad(a, p) % 256);
    StepReturns(a, p, r);
  }

  lemma StepReturns(a: seq<byte>, off: nat, r: Option<nat>)
    ensures ReturnsFrom(a, off, r) <==>
            var m := Next(a, END, off); if m.Stop? then r == m.result else ReturnsFrom(a, m.offset, r)
  {
    var m := Next(a, END, off);
    if ReturnsFrom(a, off, r) {
      var n: nat :| Walk(a, END, off, n) == Stop(r);
      if m.Go? { assert Walk(a, END, m.offset, n - 1) == Stop(r); }
    }
    if m.Stop? {
      assert Walk(a, END, off, 0) == m;
    } else if ReturnsFrom(a, m.offset, r) {
      var n: nat :| Walk(a, END, m.offset, n) == Stop(r);
      assert Walk(a, END, off, n + 1) == Stop(r);
    }
  }

  // For every area with a Pad: End is found exactly if its offset fits a byte, the supposed
  // option fits the buffer, and End is found from behind it.
  lemma PaddedEndIsFoundExactly(a: seq<byte>)
    requires Parse(a).Good? && !PadFree(Parse(a).items)
    ensures var p := FirstPad(a, 0);
            p + 1 < |a| &&
            (Returns(a, END, Some(Parse(a).end)) <==>
             Parse(a).end <= 255 && AfterPad(a, p) <= |a| && ReturnsFrom(a, AfterPad(a, p) % 256, Some(Parse(a).end)))
  {
    var p, e := FirstPad(a, 0), Parse(a).end;
    PaddedHasPad(a, 0);
    if e <= 255 {
      FirstPadDecides(a, p, Some(e));
    } else {
      LateIsNotFound(a, e);
    }
  }

  lemma {:induction false} PaddedHasPad(a: seq<byte>, off: nat)
    requires ParseAt(a, off).Good?
    ensures PadFree(ParseAt(a, off).items) <==> FirstPad(a, off) == ParseAt(a, off).end
    ensures FirstPad(a, off) < ParseAt(a, off).end ==> a[FirstPad(a, off)] == 0
    decreases |a| - off
  {
    if a[off] != END {
      var items, rest := ParseAt(a, off).items, ParseAt(a, Past(a, off)).items;
      assert items[0] == ItemAt(a, off) && items[1..] == rest;
      PaddedHasPad(a, Past(a, off));
      if a[off] != 0 {
        assert PadFree(items) <==> PadFree(rest) by {
          assert forall k :: 0 <= k < |rest| ==> rest[k] == items[k + 1];
          assert forall k :: 0 < k < |items| ==> items[k] == rest[k - 1];
        }
      }
    }
  }

  // Pads only before End are skipped two at a time; a last single one is read as an option
  // of length 255, which the wrapped offset survives exactly if the buffer goes on that long.
  lemma {:induction false} PadsFrom(a: seq<byte>, p: nat, e: nat)
    requires p <= e <= 255 && e < |a| && a[e] == END && forall i :: p <= i < e ==> a[i] == 0
    ensures ReturnsFrom(a, p, Some(e)) <==> (e - p) % 2 == 0 || |a| - e > 255
    decreases e - p
  {
    StepReturns(a, p, Some(e));
    if p + 1 == e {
      StepReturns(a, e, Some(e));
    } else if p < e {
      assert Next(a, END, p) == Go(p + 2);
      PadsFrom(a, p + 2, e);
    }
  }

  lemma TrailingPadsFound(a: seq<byte>, p: nat, e: nat)
    requires Parse(a).Good? && p == FirstPad(a, 0) && e == Parse(a).end <= 255 && forall i :: p <= i < e ==> a[i] == 0
    ensures Returns(a, END, Some(e)) <==> (e - p) % 2 == 0 || |a| - e > 255
  {
    var n := WalkReachesPad(a, 0);
    ReachedReturns(a, n, p, Some(e));
    PadsFrom(a, p, e);
  }

  // Every area whose Pads all stand before End
  lemma TrailingPadsExactly(a: seq<byte>, p: nat, e: nat)
    requires Parse(a).Good? && p == FirstPad(a, 0) && e == Parse(a).end && forall i :: p <= i < e ==> a[i] == 0
    ensures Returns(a, END, Some(e)) <==> e <= 255 && ((e - p) % 2 == 0 || |a| - e > 255)
  {
    if e <= 255 {
      TrailingPadsFound(a, p, e);
    } else {
      LateIsNotFound(a, e);
    }
  }

  // ---- when the walk stops at all ----

  lemma {:induction false} ReachesAfter(a: seq<byte>, op: byte, off: nat, n: nat)
    requires Walk(a, op, off, n).Go?
    ensures Reaches(a, op, off, n + 1, Walk(a, op, off, n).offset)
    ensures Walk(a, op, off, n).offset < 256
    decreases n
  {
    if n > 0 { ReachesAfter(a, op, Next(a, op, off).offset, n - 1); }
  }

  lemma StillGoing(a: seq<byte>, op: byte, n: nat, m: nat)
    requires Walk(a, op, 0, m).Go? && n <= m
    ensures Walk(a, op, 0, n).Go?
  {
    if Walk(a, op, 0, n).Stop? { WalkIsStable(a, op, 0, n, m); }
  }

  // An offset that comes back comes back for ever.
  lemma {:induction false} RepeatNeverStops(a: seq<byte>, op: byte, i: nat, j: nat, n: nat)
    requires i < j && Walk(a, op, 0, j).Go? && Walk(a, op, 0, i) == Walk(a, op, 0, j)
    ensures Walk(a, op, 0, n).Go?
    decreases n
  {
    if n <= j {
      StillGoing(a, op, n, j);
    } else {
      var m, to := n - j - 1, Walk(a, op, 0, j).offset;
      ReachesAfter(a, op, 0, i);
      ReachesAfter(a, op, 0, j);
      WalkJoins(a, op, 0, i + 1, to, m);
      WalkJoins(a, op, 0, j + 1, to, m);
      RepeatNeverStops(a, op, i, j, n - (j - i));
    }
  }

  lemma {:induction false} Pigeonhole(s: seq<nat>, n: nat) returns (i: nat, j: nat)
    requires |s| > n && forall k :: 0 <= k < |s| ==> s[k] < n
    ensures i < j < |s| && s[i] == s[j]
    decreases |s|
  {
    var last := |s| - 1;
    if k :| 0 <= k < last && s[k] == s[last] {
      i, j := k, last;
    } else {
      // No other entry is the last one: close the gap it leaves below n.
      var t := seq(last, k requires 0 <= k < last => if s[k] < s[last] then s[k] else s[k] - 1);
      i, j := Pigeonhole(t, n - 1);
    }
  }

  // The walk stops exactly if it does so within 257 turns.
  lemma TerminatesExactly(a: seq<byte>, op: byte)
    ensures Terminates(a, op) <==> Walk(a, op, 0, 256).Stop?
  {
    if Walk(a, op, 0, 256).Go? {
      forall k | 0 <= k <= 256
        ensures Walk(a, op, 0, k).Go? && Walk(a, op, 0, k).offset < 256
      {
        StillGoing(a, op, k, 256);
        ReachesAfter(a, op, 0, k);
      }
      var s := seq(257, k requires 0 <= k < 257 => OffsetAfter(a, op, k));
      var i, j := Pigeonhole(s, 256);
      assert OffsetAfter(a, op, i) == OffsetAfter(a, op, j);
      forall n: nat ensures Walk(a, op, 0, n).Go? { RepeatNeverStops(a, op, i, j, n); }
    }
  }

  function OffsetAfter(a: seq<byte>, op: byte, k: nat): nat {
    var m := Walk(a, op, 0, k);
    if m.Go? then m.offset else 0
  }

  // ---- the rewritten area ----

  // The area after skb_put, whose new bytes are arbitrary, with the option and a new End
  // written from the found offset on.
  function Rewrite(a: seq<byte>, off: nat, data: seq<byte>, junk: seq<byte>): (r: seq<byte>)
    requires off < |a| && |data| < 256 && |junk| == |data| + 2
    ensures |r| == |a| + |data| + 2
  {
    seq(|a| + |data| + 2, i requires 0 <= i < |a| + |data| + 2 => Written((a + junk)[i], off, data, i))
  }

  // The byte at index i, which was b before
  function Written(b: byte, off: nat, data: seq<byte>, i: nat): byte
    requires |data| < 256
  {
    if i < off then b
    else if i == off then RELAY
    else if i == off + 1 then |data|
    else if i < off + 2 + |data| then data[i - off - 2]
    else if i == off + 2 + |data| then END
    else b
  }

  lemma RewriteBytes(a: seq<byte>, off: nat, data: seq<byte>, junk: seq<byte>)
    requires off < |a| && |data| < 256 && |junk| == |data| + 2
    ensures var b := Rewrite(a, off, data, junk);
            && (forall i :: 0 <= i < off ==> b[i] == a[i])
            && ParseAt(b, off) == Good([Opt(RELAY, data)], off + |data| + 2)
  {
    var b := Rewrite(a, off, data, junk);
    assert b[off] == RELAY && b[off + 1] == |data| && b[off + |data| + 2] == END;
    assert b[off + 2..off + |data| + 2] == data;
    assert ParseAt(b, off + |data| + 2) == Good([], off + |data| + 2);
  }

  // Wherever the walk found an End code, the rewritten area holds the original options and
  // then option 82 exactly if that was the End option.
  lemma RewriteIsRightExactly(a: seq<byte>, off: nat, data: seq<byte>, junk: seq<byte>)
    requires Parse(a).Good? && off < |a| && a[off] == END && |data| < 256 && |junk| == |data| + 2
    ensures Parse(Rewrite(a, off, data, junk)) == Good(Parse(a).items + [Opt(RELAY, data)], off + |data| + 2)
            <==> off == Parse(a).end
  {
    var b := Rewrite(a, off, data, junk);
    RewriteBytes(a, off, data, junk);
    if off == Parse(a).end {
      ParseExtends(a, b, 0);
    } else if Parse(b) == Good(Parse(a).items + [Opt(RELAY, data)], off + |data| + 2) {
      SameItemsSameBytes(a, b, 0, [Opt(RELAY, data)]);
      assert false;
    }
  }

  // Walk and rewrite together, over every area that parses: if the walk finds an End code at
  // all, the result parses to the original options, option 82 and an End that lies inside the
  // grown area exactly if the walk finds the End option.
  ghost predicate Inserted(a: seq<byte>, b: seq<byte>, off: nat, data: seq<byte>)
    requires Parse(a).Good? && |data| < 256
  {
    Parse(b) == Good(Parse(a).items + [Opt(RELAY, data)], off + |data| + 2)
  }

  lemma InsertionNeedsEnd(a: seq<byte>, off: nat, data: seq<byte>, junk: seq<byte>)
    requires Parse(a).Good? && |data| < 256 && |junk| == |data| + 2 && Returns(a, END, Some(off))
    ensures off < |a|
    ensures Inserted(a, Rewrite(a, off, data, junk), off, data) <==> Returns(a, END, Some(Parse(a).end))
  {
    var n: nat :| Walk(a, END, 0, n) == Stop(Some(off));
    FoundIsByteWide(a, 0, n);
    RewriteIsRightExactly(a, off, data, junk);
    if Returns(a, END, Some(Parse(a).end)) { ReturnsOnce(a, END, Some(off), Some(Parse(a).end)); }
  }

  // Without Pads: exactly if End was at offset 255 or less.
  lemma InsertionIsRightExactly(a: seq<byte>, off: nat, data: seq<byte>, junk: seq<byte>)
    requires Parse(a).Good? && PadFree(Parse(a).items) && |data| < 256 && |junk| == |data| + 2
    requires Returns(a, END, Some(off))
    ensures off < |a|
    ensures Inserted(a, Rewrite(a, off, data, junk), off, data) <==> Parse(a).end <= 255
  {
    InsertionNeedsEnd(a, off, data, junk);
    EndIsFoundExactly(a);
  }
}
