/** The socket buffer that dhcp_option82_handle grows and rewrites in place. */
module Option82Packet {
  import opened Options
  import opened Option82

  datatype Outcome = Skipped | Handled | Failed

  function Align4(size: nat): (r: nat)
    ensures r % 4 == 0 && size <= r < size + 4
  {
    (size + 3) / 4 * 4
  }

  class Packet {
    var buf: array<byte>    // from skb->data to skb->end
    var opt: nat            // the option area, behind the cookie
    var tail: nat           // skb->len
    var cloned: bool
    var ipLen: int          // tot_len and the UDP length, sixteen bits each
    var udpLen: int

    // The datagrams lie inside the buffer.
    ghost predicate Valid()
      reads this
    {
      opt <= tail <= buf.Length && 0 <= udpLen <= ipLen <= tail
    }

    ghost function Area(): seq<byte>
      requires Valid()
      reads this, buf
    {
      buf[opt..tail]
    }

    // skb_tailroom and pskb_expand_head, whose success and rounding are the kernel's
    method Enlarge(extra: nat, granted: bool, slack: nat) returns (ok: bool)
      requires Valid()
      modifies this`buf, this`cloned
      ensures Valid() && (buf == old(buf) || fresh(buf)) && buf[..tail] == old(buf[..tail])
      ensures ok ==> tail + extra <= buf.Length && tail + extra <= 65535 && !cloned
      ensures ok <==> tail + extra <= 65535 && (old(extra <= buf.Length - tail && !cloned) || granted)
    {
      if tail + extra > 65535 { return false; }
      if extra > buf.Length - tail || cloned {
        if !granted { return false; }
        var was := buf;
        var bigger := new byte[tail + extra + slack];
        Copy(bigger, 0, was[..tail]);
        buf, cloned := bigger, false;
      }
      return true;
    }

    // The loop of dhcp_get_option
    method GetOption(op: byte) returns (r: Option<nat>)
      requires Valid() && Terminates(Area(), op)
      ensures Returns(Area(), op, r)
    {
      ghost var a := Area();
      ghost var turns: nat :| Walk(a, op, 0, turns).Stop?;
      ghost var left := turns;
      var off: nat := 0;
      while opt + off < tail
        invariant off < 256 && Walk(a, op, off, left) == Walk(a, op, 0, turns)
        decreases left
      {
        var code := buf[opt + off];
        assert code == a[off];
        if code == 0xff {
          return if op == 0xff then Some(off) else None;
        }
        if opt + off + 1 == tail { return None; }
        var len := buf[opt + off + 1];
        assert len == a[off + 1];
        if opt + off + len + 2 > tail { return None; }
        if code == op { return Some(off); }
        off := (off + len + 2) % 256;
        left := left - 1;
      }
      return None;
    }

    // The four writes, byte by byte
    method Patch(p: nat, data: seq<byte>)
      requires |data| < 256 && p + |data| + 3 <= buf.Length
      modifies buf
      ensures forall i :: 0 <= i < buf.Length ==> buf[i] == Written(old(buf[i]), p, data, i)
    {
      buf[p] := 82;
      buf[p + 1] := |data|;
      Copy(buf, p + 2, data);
      buf[p + 2 + |data|] := 0xff;
      assert forall k :: 0 <= k < |data| ==> buf[p + 2 + k] == data[k];
      forall i | p + 2 <= i < p + 2 + |data| ensures buf[i] == data[i - p - 2] {
        assert buf[p + 2 + (i - p - 2)] == data[i - p - 2];
      }
    }

    // The option and a new End, over the old one
    method Write(at: nat, data: seq<byte>, ghost area: seq<byte>, ghost junk: seq<byte>)
      requires Valid() && |data| < 256 && at < |area| && |junk| == |data| + 2 && Area() == area + junk
      modifies buf
      ensures Area() == Rewrite(area, at, data, junk)
      ensures buf[..opt] == old(buf[..opt])
    {
      ghost var was := Area();
      Patch(opt + at, data);
      assert forall i :: 0 <= i < |was| ==> Area()[i] == Written(was[i], at, data, i);
    }

    // skb_put; what the new bytes hold is not known
    method Put(n: nat) returns (ghost junk: seq<byte>)
      requires Valid() && tail + n <= buf.Length
      modifies this`tail
      ensures Valid() && tail == old(tail) + n && |junk| == n && Area() == old(Area()) + junk
    {
      junk := buf[tail..tail + n];
      tail := tail + n;
    }

    // From the search for End on; there is room for the option.
    method Insert(data: seq<byte>) returns (found: Option<nat>, ghost junk: seq<byte>)
      requires Valid() && Terminates(Area(), END) && |data| < 256 && tail + |data| + 2 <= buf.Length
      requires tail + |data| + 2 <= 65535
      modifies this`tail, this`ipLen, this`udpLen, buf
      ensures Valid() && Returns(old(Area()), END, found)
      ensures found.None? ==> Area() == old(Area()) && ipLen == old(ipLen) && udpLen == old(udpLen) && tail == old(tail)
      ensures found.Some? ==> (&& found.value < |old(Area())| && |junk| == |data| + 2
                               && Area() == Rewrite(old(Area()), found.value, data, junk))
      ensures found.Some? ==> (&& ipLen == old(ipLen) + |data| + 2 && udpLen == old(udpLen) + |data| + 2
                               && tail == old(tail) + |data| + 2)
      ensures buf[..opt] == old(buf[..opt])
    {
      junk := [];
      ghost var area := Area();
      found := GetOption(END);
      if found.None? { return; }
      FoundInside(area, found.value);
      junk := Put(|data| + 2);
      Write(found.value, data, area, junk);
      ipLen := (ipLen + |data| + 2) % 65536;
      udpLen := (udpLen + |data| + 2) % 65536;
    }

    // dhcp_option82_handle, for a message over which the search for End comes to a stop
    method Handle(request: bool, wanted: bool, data: seq<byte>, granted: bool, slack: nat)
      returns (r: Outcome, found: Option<nat>, ghost junk: seq<byte>)
      requires Valid() && Terminates(Area(), END)
      modifies this, buf
      ensures Valid() && opt == old(opt)
      ensures r.Skipped? <==> !(request && wanted)
      ensures r.Failed? <==> (&& request && wanted
                              && (|| |data| > 255 || old(tail) + Align4(|data| + 2) > 65535
                                  || (old(Align4(|data| + 2) > buf.Length - tail || cloned) && !granted)
                                  || Returns(old(Area()), END, None)))
      ensures !r.Handled? ==> Area() == old(Area()) && ipLen == old(ipLen) && udpLen == old(udpLen)
      ensures r.Handled? ==> (&& found.Some? && Returns(old(Area()), END, found) && found.value < |old(Area())|
                              && |data| < 256 && |junk| == |data| + 2
                              && Area() == Rewrite(old(Area()), found.value, data, junk))
      ensures r.Handled? ==> (&& ipLen == old(ipLen) + |data| + 2 <= 65535 && udpLen == old(udpLen) + |data| + 2
                              && tail == old(tail) + |data| + 2 <= 65535)
      ensures buf[..opt] == old(buf[..opt])
      ensures r.Handled? ==> Joined(old(Area()), Area(), found.value, data)
    {
      ghost var area := Area();
      found, junk := None, [];
      if !(request && wanted) { return Skipped, found, junk; }
      if |data| > 255 { return Failed, found, junk; }
      var ok := Enlarge(Align4(|data| + 2), granted, slack);
      assert Area() == buf[..tail][opt..] && area == old(buf[..tail])[opt..];
      assert buf[..opt] == buf[..tail][..opt] && old(buf[..opt]) == old(buf[..tail])[..opt];
      if !ok { return Failed, found, junk; }
      found, junk := Insert(data);
      if found.None? { return Failed, found, junk; }
      if Returns(area, END, None) { ReturnsOnce(area, END, None, found); }
      RewriteJoins(area, found.value, data, junk);
      r := Handled;
    }
  }

  // What the rewritten options mean: the old ones and option 82, exactly if the End option was
  // found; and without Pads exactly if it was at offset 255 or less.
  ghost predicate Joined(a: seq<byte>, b: seq<byte>, off: nat, data: seq<byte>)
    requires |data| < 256
  {
    Parse(a).Good? ==>
      && (Inserted(a, b, off, data) <==> off == Parse(a).end)
      && (PadFree(Parse(a).items) ==> (Inserted(a, b, off, data) <==> Parse(a).end <= 255))
  }

  lemma RewriteJoins(a: seq<byte>, off: nat, data: seq<byte>, junk: seq<byte>)
    requires |data| < 256 && |junk| == |data| + 2 && Returns(a, END, Some(off))
    ensures off < |a| && Joined(a, Rewrite(a, off, data, junk), off, data)
  {
    FoundInside(a, off);
    if Parse(a).Good? {
      RewriteIsRightExactly(a, off, data, junk);
      if PadFree(Parse(a).items) { InsertionIsRightExactly(a, off, data, junk); }
    }
  }

  lemma FoundInside(a: seq<byte>, r: nat)
    requires Returns(a, END, Some(r))
    ensures r < |a| && a[r] == END
  {
    var n: nat :| Walk(a, END, 0, n) == Stop(Some(r));
    FoundIsByteWide(a, 0, n);
  }

  // memcpy
  method Copy(to: array<byte>, at: nat, data: seq<byte>)
    requires at + |data| <= to.Length
    modifies to
    ensures forall k :: 0 <= k < |data| ==> to[at + k] == data[k]
    ensures forall i :: 0 <= i < to.Length && !(at <= i < at + |data|) ==> to[i] == old(to[i])
  {
    for k := 0 to |data|
      invariant forall j :: 0 <= j < k ==> to[at + j] == data[j]
      invariant forall i :: 0 <= i < to.Length && !(at <= i < at + k) ==> to[i] == old(to[i])
    {
      to[at + k] := data[k];
    }
  }
}
