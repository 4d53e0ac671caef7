/** The loops of `cam_hal.c` over frames and frame bytes. */
module CamBuffers {
  import opened Bits
  import CamHal

  predicate IsEoi(s: seq<Byte>, k: nat) {
    k + 1 < |s| && s[k] == 0xFF && s[k + 1] == 0xD9
  }

  /** `offset` is the last end-of-image marker behind the first byte, or -1 when there is none. */
  ghost predicate IsLastEoi(s: seq<Byte>, offset: int) {
    && (offset == -1 || (offset >= 1 && IsEoi(s, offset)))
    && forall k: nat {:trigger IsEoi(s, k)} :: k >= 1 && k > offset ==> !IsEoi(s, k)
  }

  /** `cam_verify_jpeg_eoi` */
  method CamVerifyJpegEoi(inbuf: array<Byte>, length: nat) returns (offset: int)
    requires length <= inbuf.Length
    ensures IsLastEoi(inbuf[..length], offset)
  {
    var dptr := length - 2;
    while dptr > 0
      invariant dptr <= length - 2
      invariant forall k: nat {:trigger IsEoi(inbuf[..length], k)} :: k >= 1 && k > dptr ==> !IsEoi(inbuf[..length], k)
      decreases dptr
    {
      if inbuf[dptr] == 0xFF && inbuf[dptr + 1] == 0xD9 {
        assert IsEoi(inbuf[..length], dptr);
        return dptr;
      }
      dptr := dptr - 1;
    }
    return -1;
  }

  /** The JPEG branch of `cam_take`: the new length of the frame, or -1 when the frame goes back. */
  method CutFrame(buf: array<Byte>, len: nat) returns (newLen: int)
    requires len <= buf.Length
    ensures newLen == -1 <==> forall k: nat {:trigger IsEoi(buf[..len], k)} :: k >= 1 ==> !IsEoi(buf[..len], k)
    ensures newLen != -1 ==> 3 <= newLen <= len && buf[newLen - 2] == 0xFF && buf[newLen - 1] == 0xD9
    ensures newLen != -1 ==>
      forall k: nat {:trigger IsEoi(buf[..len], k)} :: k > newLen - 2 ==> !IsEoi(buf[..len], k)
  {
    var offset := CamVerifyJpegEoi(buf, len);
    newLen := if offset >= 0 then offset + 2 else -1;
  }

  /** The frame `cam_get_next_frame` settles on: the current one if it is enabled, else the first enabled one. */
  ghost predicate IsNextFrame(en: seq<bool>, framePos: nat, x: nat) {
    && x < |en| && en[x]
    && (x != framePos ==> !(framePos < |en| && en[framePos]) && forall y :: 0 <= y < x ==> !en[y])
  }

  /** `cam_get_next_frame` when nobody interferes. */
  method CamGetNextFrame(en: array<bool>, framePos: nat) returns (found: bool, pos: nat)
    requires framePos < en.Length
    ensures found ==> IsNextFrame(en[..], framePos, pos)
    ensures !found ==> pos == framePos && forall x :: 0 <= x < en.Length ==> !en[x]
  {
    if !en[framePos] {
      for x := 0 to en.Length
        invariant forall y :: 0 <= y < x ==> !en[y]
      {
        if en[x] {
          return true, x;
        }
      }
    } else {
      return true, framePos;
    }
    return false, framePos;
  }

  /** `cam_give`: frame `frame` is enabled again; a buffer that is no frame changes nothing. */
  method CamGive(en: array<bool>, frame: int)
    modifies en
    ensures en[..] == if 0 <= frame < en.Length then old(en[..])[frame := true] else old(en[..])
  {
    for x := 0 to en.Length
      invariant en[..] == old(en[..]) && (frame < 0 || x <= frame)
    {
      if x == frame {
        en[x] := true;
        break;
      }
    }
  }

  // ------------------------------------------------------------ the scan in the state machine

  lemma ScanStepInBounds(c: CamHal.Config, s: CamHal.State, ch: CamHal.Choice)
    requires CamHal.InBounds(c, s) && s.pc.Scan?
    ensures CamHal.InBounds(c, CamHal.TaskStep(c, s, ch))
  {
  }

  /** Up to `n` steps of a scan with nobody in between. */
  function ScanSteps(c: CamHal.Config, s: CamHal.State, ch: CamHal.Choice, n: nat): CamHal.State
    requires CamHal.InBounds(c, s)
    decreases n
  {
    if n == 0 || !s.pc.Scan? then s
    else ScanStepInBounds(c, s, ch); ScanSteps(c, CamHal.TaskStep(c, s, ch), ch, n - 1)
  }

  /** Left alone, the scan of the state machine settles on the frame `CamGetNextFrame` finds. */
  lemma {:induction false} ScanFinds(c: CamHal.Config, s: CamHal.State, ch: CamHal.Choice, y: nat)
    requires CamHal.InBounds(c, s) && s.pc.Scan? && !s.en[s.framePos] && s.pc.x <= y
    requires IsNextFrame(s.en, s.framePos, y)
    ensures ScanSteps(c, s, ch, y - s.pc.x + 1) == s.(pc := CamHal.StartCam(s.pc.idle), framePos := y)
    decreases y - s.pc.x
  {
    hide CamHal.InBounds;
    ScanStepInBounds(c, s, ch);
    var t := CamHal.TaskStep(c, s, ch);
    if s.pc.x < y {
      ScanFinds(c, t, ch, y);
    } else {
      assert ScanSteps(c, t, ch, 0) == t;
    }
  }
}
