/** The runtime's tables as they are updated in place; every operation is the one of `Shadow` or `Melting`. */
module ShadowRuntime {
  import opened Outcomes
  import opened Terms
  import opened Shadow
  import opened Melting

  lemma Prepend<T>(done: seq<T>, next: T, rest: seq<T>)
    ensures done + ([next] + rest) == done + [next] + rest
  {
  }

  class Runtime {
    var shadow: map<nat, nat>
    var info: map<nat, Info>
    var frames: seq<seq<nat>>
    var owner: map<nat, nat>

    function State(): Memory
      reads this
    {
      Memory(shadow, info, frames, owner)
    }

    /** Start-up enters the global frame. */
    constructor ()
      ensures State() == Enter(Memory(map[], map[], [], map[])) && Valid(State())
    {
      shadow, info, frames, owner := map[], map[], [], map[];
      new;
      EntryFrame();
      StartValid();
    }

    method EntryFrame()
      modifies this
      ensures State() == Enter(old(State()))
    {
      frames := frames + [[]];
    }

    method ExitFrame()
      requires frames != []
      modifies this
      ensures State() == Exit(old(State()))
    {
      var addrs := frames[|frames| - 1];
      for i := 0 to |addrs|
        invariant State() == Release(old(State()), addrs[..i])
      {
        shadow := shadow - {addrs[i]};
        owner := owner - {addrs[i]};
        assert addrs[..i + 1][..i] == addrs[..i];
      }
      assert addrs[..|addrs|] == addrs;
      frames := frames[..|frames| - 1];
    }

    method CreateShadowLabel(i: Info) returns (mark: nat)
      modifies this
      ensures mark == NextLabel(old(State())) && State() == CreateLabel(old(State()), i)
    {
      mark := |info| + 1;
      if mark !in info {
        info := info[mark := i];
      }
    }

    method SetShadowLabel(mark: nat, addr: nat, size: nat)
      requires frames != []
      modifies this
      ensures State() == SetLabel(old(State()), mark, addr, size)
    {
      for offset := 0 to size
        invariant State() == SetLabel(old(State()), mark, addr, offset)
      {
        var b, last := addr + offset, |frames| - 1;
        if b !in owner {
          frames := frames[last := frames[last] + [b]];
          owner := owner[b := last];
        }
        shadow := shadow[b := mark];
      }
    }

    method EraseShadow(addr: nat, size: nat)
      modifies this
      ensures State() == Shadow.EraseShadow(old(State()), addr, size)
    {
      for offset := 0 to size
        invariant State() == Shadow.EraseShadow(old(State()), addr, offset)
      {
        shadow := shadow - {addr + offset};
      }
    }

    method Poke(addr: nat, bytes: nat, value: Option<Term>)
      requires frames != []
      modifies this
      ensures State() == Shadow.Poke(old(State()), addr, bytes, value)
    {
      if value.Some? {
        var mark := CreateShadowLabel(Info(value.value, addr, bytes));
        SetShadowLabel(mark, addr, bytes);
      } else {
        EraseShadow(addr, bytes);
      }
    }

    /** Whether any byte of the range is labelled. */
    method TestTaint(addr: nat, bytes: nat) returns (tainted: bool)
      ensures tainted <==> exists a :: addr <= a < addr + bytes && a in shadow
    {
      for offset := 0 to bytes
        invariant forall a :: addr <= a < addr + offset ==> a !in shadow
      {
        if addr + offset in shadow {
          return true;
        }
      }
      return false;
    }

    method Peek(addr: nat, bytes: nat) returns (pieces: seq<Piece>)
      requires Valid(State())
      ensures pieces == Melting.Peek(State(), addr, bytes)
    {
      hide Owned, Shaded, Counted;
      ghost var m := State();
      pieces := [];
      var offset: nat := 0;
      while offset < bytes
        invariant Melting.Peek(m, addr, bytes) == pieces + Melting.Peek(m, addr + offset, bytes - offset)
        decreases bytes - offset
      {
        var a := addr + offset;
        var piece := Plain;
        Recorded(m, a);
        if a in shadow {
          piece := Whole(info[shadow[a]]);
        }
        Prepend(pieces, piece, Melting.Peek(m, a + Size(piece), bytes - offset - Size(piece)));
        pieces := pieces + [piece];
        offset := offset + Size(piece);
      }
      assert pieces + [] == pieces;
    }

    method Freeze(value: Option<Term>, addr: nat, bytes: nat)
      requires frames != []
      modifies this
      ensures State() == Shadow.Poke(old(State()), addr, bytes, value)
    {
      Poke(addr, bytes, value);
    }

    method Melt(concrete: nat -> Octet, addr: nat, bytes: nat) returns (result: Option<Term>)
      requires Valid(State())
      ensures result == Melting.Melt(State(), concrete, addr, bytes)
    {
      hide Owned, Shaded, Counted;
      result := None;
      var offset: nat := 0;
      var pieces := Peek(addr, if bytes == 0 then 1 else bytes);
      for k := 0 to |pieces|
        invariant Assemble(pieces, concrete, addr, bytes, None)
               == Assemble(pieces[k..], concrete, addr + offset, bytes, result)
      {
        assert pieces[k..][1..] == pieces[k + 1..];
        match pieces[k]
        case Whole(i) =>
          if i.bytes == bytes || bytes == 0 {
            return Some(i.value);
          }
          if i.bytes > bytes {
            return Some(Trunc(i.value, 8 * bytes));
          }
          result := Append(result, i.value);
          offset := offset + i.bytes;
        case Plain =>
          result := Append(result, Byte(concrete(addr + offset)));
          offset := offset + 1;
      }
    }
  }
}
