/**
 * One slot record of the shared array: a state flag, a fingerprint, an expiry, two lengths and
 * two fixed-size buffers of which only the first `keyLen` / `valLen` bytes are meaningful.
 */
module SlotLayout {
  import opened Bytes

  const MAX_KEY_LEN: nat := 128
  const MAX_VAL_LEN: nat := 1024

  datatype State = EMPTY | OCCUPIED | TOMBSTONE

  type KeyBuf = s: Bytes | |s| == MAX_KEY_LEN witness seq(MAX_KEY_LEN, _ => 0)
  type ValBuf = s: Bytes | |s| == MAX_VAL_LEN witness seq(MAX_VAL_LEN, _ => 0)

  datatype Slot = Slot(
    state: State,
    fingerprint: u64,
    expiresAt: u64,
    keyLen: nat,
    valLen: nat,
    keyBuf: KeyBuf,
    valBuf: ValBuf)

  function Min(a: nat, b: nat): nat { if a <= b then a else b }

  /** The first `|src|` bytes of `buf` replaced by `src`; the tail keeps its stale bytes. */
  function Overwrite(buf: Bytes, src: Bytes): (r: Bytes)
    requires |src| <= |buf|
    ensures |r| == |buf| && r[..|src|] == src && r[|src|..] == buf[|src|..]
  {
    src + buf[|src|..]
  }

  function ReadKey(s: Slot): Bytes { s.keyBuf[..Min(s.keyLen, MAX_KEY_LEN)] }

  function ReadValue(s: Slot): Bytes { s.valBuf[..Min(s.valLen, MAX_VAL_LEN)] }

  /** A bounded copy: over-long input is cut, nothing outside key buffer and length changes. */
  function WriteKey(s: Slot, key: Bytes): (r: Slot)
    ensures ReadKey(r) == Clip(key, MAX_KEY_LEN) && ReadValue(r) == ReadValue(s)
    ensures r == s.(keyBuf := r.keyBuf, keyLen := r.keyLen)
  {
    var k := Clip(key, MAX_KEY_LEN);
    s.(keyBuf := Overwrite(s.keyBuf, k), keyLen := |k|)
  }

  function WriteValue(s: Slot, value: Bytes): (r: Slot)
    ensures ReadValue(r) == Clip(value, MAX_VAL_LEN) && ReadKey(r) == ReadKey(s)
    ensures r == s.(valBuf := r.valBuf, valLen := r.valLen)
  {
    var v := Clip(value, MAX_VAL_LEN);
    s.(valBuf := Overwrite(s.valBuf, v), valLen := |v|)
  }

  /** Reset to the empty state; the buffers are left as they are. */
  function Reset(s: Slot): Slot {
    s.(state := EMPTY, fingerprint := 0, expiresAt := 0, keyLen := 0, valLen := 0)
  }
}
