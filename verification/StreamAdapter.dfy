/** Stream-style reading of a device (`IoAdapter`, src/blockdev.rs). */
module StreamAdapter {
  import opened Common
  import opened GuestDisk
  import opened DiskStack

  const U64: nat := 0x1_0000_0000_0000_0000

  datatype SeekFrom = Start(offset: nat) | End(delta: int) | Current(delta: int)

  /** `checked_add_signed` on 64-bit positions. */
  function Moved(base: nat, delta: int): Option<nat> {
    if 0 <= base + delta < U64 then Some(base + delta) else None
  }

  class IoAdapter {
    const dev: Slice
    var pos: nat

    constructor (dev: Slice)
      ensures this.dev == dev && pos == 0
    {
      this.dev := dev;
      pos := 0;
    }

    /** `read`: the bytes at the position, up to the end of the device; the position moves over
        exactly what was delivered, and not at all when the device fails. */
    method Read(ghost codec: Codec, buf: array<byte>) returns (r: Result<nat>)
      requires dev.parent.Valid() && buf !in dev.parent.Objects() && this !in dev.parent.Objects()
      requires dev.parent.Qcow2Disk? ==> dev.parent.q.codec == codec
      modifies this, dev.parent.Objects(), buf
      ensures dev.parent.Valid() && dev.parent.Shown() == old(dev.parent.Shown())
      ensures dev.parent.Objects() == old(dev.parent.Objects())
      ensures WellFormed(dev.parent.Shown().image)
      ensures r.Ok? ==>
                && r.value == Min(buf.Length, SaturatingSub(dev.len, old(pos)))
                && pos == old(pos) + r.value && buf[r.value..] == old(buf[r.value..])
                && (old(dev.parent.Intact()) && Coherent(codec, dev.parent.Shown().image) ==>
                      dev.parent.Intact() && Shows(codec, dev.parent.Shown().image, dev.start + old(pos), buf[..r.value]))
      ensures r.Err? ==> pos == old(pos)
    {
      hide GuestByte, Coherent;
      var remaining := SaturatingSub(dev.len, pos);
      var n := Min(buf.Length, remaining);
      if n == 0 {
        ShownIsWellFormed(dev.parent);
        return Ok(0);
      }
      var outcome := dev.ReadInto(codec, pos, buf, n);
      if outcome.Failed? {
        return Err(Io);
      }
      pos := pos + n;
      r := Ok(n);
    }

    /** `seek`: a target before the start leaves the position alone. */
    method Seek(target: SeekFrom) returns (r: Result<nat>)
      modifies this`pos
      ensures var p := match target { case Start(o) => Some(o) case End(d) => Moved(dev.len, d) case Current(d) => Moved(old(pos), d) };
              if p.Some? then r == Ok(p.value) && pos == p.value else r == Err(Io) && pos == old(pos)
    {
      var p := match target {
        case Start(o) => Some(o)
        case End(d) => Moved(dev.len, d)
        case Current(d) => Moved(pos, d)
      };
      if p.None? {
        return Err(Io);
      }
      pos := p.value;
      r := Ok(pos);
    }
  }
}
