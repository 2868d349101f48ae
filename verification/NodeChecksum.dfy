/** The checksum at the head of a BTRFS node and what it says about the rest of the node. */
module NodeChecksum {
  import opened Machine
  import opened Crc32c
  import opened Crc32cTable

  // ----- From bytes to bits

  lemma RestIsShift(v: bv8)
    ensures Rest(v, 0) == v as bv32 && Rest(v, 1) == v as bv32 >> 1 && Rest(v, 2) == v as bv32 >> 2
    ensures Rest(v, 3) == v as bv32 >> 3 && Rest(v, 4) == v as bv32 >> 4
    ensures Rest(v, 5) == v as bv32 >> 5 && Rest(v, 6) == v as bv32 >> 6
    ensures Rest(v, 7) == v as bv32 >> 7
  {
    NothingLeft(v);
  }

  lemma SameBitsSameByte(v: bv8, w: bv8)
    requires forall k :: 0 <= k < 8 ==> Odd(Rest(v, k)) == Odd(Rest(w, k))
    ensures v == w
  {
    hide Rest;
    RestIsShift(v);
    RestIsShift(w);
    assert Odd(Rest(v, 0)) == Odd(Rest(w, 0)) && Odd(Rest(v, 1)) == Odd(Rest(w, 1));
    assert Odd(Rest(v, 2)) == Odd(Rest(w, 2)) && Odd(Rest(v, 3)) == Odd(Rest(w, 3));
    assert Odd(Rest(v, 4)) == Odd(Rest(w, 4)) && Odd(Rest(v, 5)) == Odd(Rest(w, 5));
    assert Odd(Rest(v, 6)) == Odd(Rest(w, 6)) && Odd(Rest(v, 7)) == Odd(Rest(w, 7));
  }

  lemma DifferentByteDifferentBit(d: seq<bv8>, e: seq<bv8>, i: nat)
    requires |d| == |e| && i < |d| && d[i] != e[i]
    ensures !Agree(d, e, 0, 8 * |d|)
  {
    hide Odd, Rest;
    if Agree(d, e, 0, 8 * |d|) {
      forall k | 0 <= k < 8 ensures Odd(Rest(d[i], k)) == Odd(Rest(e[i], k)) {
        assert !Differ(d, e, 8 * i + k);
        assert (8 * i + k) / 8 == i && (8 * i + k) % 8 == k;
      }
      SameBitsSameByte(d[i], e[i]);
    }
  }

  lemma {:induction false} FirstDifference(d: seq<bv8>, e: seq<bv8>, n: nat) returns (p: nat)
    requires |d| == |e| && n <= 8 * |d| && !Agree(d, e, 0, n)
    ensures p < n && Agree(d, e, 0, p) && Differ(d, e, p)
  {
    if Agree(d, e, 0, n - 1) {
      p := n - 1;
    } else {
      p := FirstDifference(d, e, n - 1);
    }
  }

  /** Bytes s, s + 1, s + 2 and s + 3 are the only ones that may differ. */
  predicate SameOutside(d: seq<bv8>, e: seq<bv8>, s: nat) {
    && |d| == |e|
    && forall i :: 0 <= i < |d| && (i < s || s + 4 <= i) ==> d[i] == e[i]
  }

  /** Changing up to four consecutive bytes changes the code. */
  lemma FourBytesAreDetected(d: seq<bv8>, e: seq<bv8>, s: nat)
    requires SameOutside(d, e, s) && d != e
    ensures Crc(d) != Crc(e)
  {
    hide Crc, Rest, Odd;
    var i :| 0 <= i < |d| && d[i] != e[i];
    DifferentByteDifferentBit(d, e, i);
    var p := FirstDifference(d, e, 8 * |d|);
    assert d[p / 8] != e[p / 8];
    var q := if 8 * s + 32 <= 8 * |d| then 8 * s + 32 else 8 * |d|;
    forall n | q <= n < 8 * |d| ensures !Differ(d, e, n) {
      assert d[n / 8] == e[n / 8];
    }
    BurstIsDetected(d, e, p, q);
  }

  lemma TenUpdates()
    ensures Update(0xffffffff, 0x00) == 0xad82acae
    ensures Update(0xad82acae, 0x00) == 0x0e9e882d
    ensures Update(0x0e9e882d, 0x00) == 0x9f9b5c85
    ensures Update(0x9f9b5c85, 0x00) == 0xb798b438
    ensures Update(0xb798b438, 0x00) == 0xba8d89ca
    ensures Update(0xffffffff, 0xf1) == 0xac8740d8
    ensures Update(0xac8740d8, 0x76) == 0x0e9f8dc1
    ensures Update(0x0e9f8dc1, 0xec) == 0x9f9b5d80
    ensures Update(0x9f9b5d80, 0x05) == 0xb798b439
    ensures Update(0xb798b439, 0x01) == 0xba8d89ca
  {
  }

  /** Four bytes is the limit: this change of 33 consecutive bits goes unnoticed. */
  lemma FiveBytesAreNot()
    ensures Crc([0, 0, 0, 0, 0]) == Crc([0xf1, 0x76, 0xec, 0x05, 0x01])
  {
    var d: seq<bv8>, e: seq<bv8> := [0, 0, 0, 0, 0], [0xf1, 0x76, 0xec, 0x05, 0x01];
    hide Update, Register;
    TenUpdates();
    Start(INITIAL, d);
    Start(INITIAL, e);
    UpdateTakesByte(INITIAL, d, 0);
    UpdateTakesByte(INITIAL, d, 1);
    UpdateTakesByte(INITIAL, d, 2);
    UpdateTakesByte(INITIAL, d, 3);
    UpdateTakesByte(INITIAL, d, 4);
    UpdateTakesByte(INITIAL, e, 0);
    UpdateTakesByte(INITIAL, e, 1);
    UpdateTakesByte(INITIAL, e, 2);
    UpdateTakesByte(INITIAL, e, 3);
    UpdateTakesByte(INITIAL, e, 4);
  }

  // ----- The node

  function ToUint32(data: seq<bv8>): bv32
    requires |data| >= 4
  {
    (data[0] as bv32) | ((data[1] as bv32) << 8) | ((data[2] as bv32) << 16) | ((data[3] as bv32) << 24)
  }

  /** The check passes, fails, or panics on fewer than 32 bytes. */
  method VerifyChkSum(chksum: seq<bv8>, data: seq<bv8>) returns (ok: Outcome<bool>)
    requires |chksum| == 32
    ensures ok == if |data| < 32 then Panics else Returns(ToUint32(chksum) == Crc(data[32..]))
  {
    hide ToUint32, Crc;
    if |data| < 32 {
      return Panics;
    }
    var crc := CalcCRC32(data[32..]);
    ok := Returns(ToUint32(chksum) == crc);
  }

  predicate Passes(chksum: seq<bv8>, data: seq<bv8>)
    requires |chksum| == 32 && |data| >= 32
  {
    ToUint32(chksum) == Crc(data[32..])
  }

  /** A node that passes fails after any change to four consecutive bytes behind its checksum. */
  lemma DamageIsFound(chksum: seq<bv8>, data: seq<bv8>, damaged: seq<bv8>, s: nat)
    requires |chksum| == 32 && |data| >= 32 && s >= 32
    requires SameOutside(data, damaged, s) && data != damaged
    requires Passes(chksum, data)
    ensures !Passes(chksum, damaged)
  {
    hide Crc, ToUint32;
    var d, e := data[32..], damaged[32..];
    var i :| 0 <= i < |data| && data[i] != damaged[i];
    assert d[i - 32] != e[i - 32];
    FourBytesAreDetected(d, e, s - 32);
  }

  lemma ToUint32IsInjective(a: seq<bv8>, b: seq<bv8>)
    requires |a| >= 4 && |b| >= 4
    ensures ToUint32(a) == ToUint32(b)
            <==> a[0] == b[0] && a[1] == b[1] && a[2] == b[2] && a[3] == b[3]
  {
  }

  /** Of the 32 checksum bytes only the first four count: changing them makes a node that
      passes fail, and changing the others goes unnoticed. */
  lemma FourChecksumBytesCount(data: seq<bv8>, damaged: seq<bv8>)
    requires |data| == |damaged| && |data| >= 32 && data[32..] == damaged[32..]
    requires Passes(data[..32], data)
    ensures Passes(damaged[..32], damaged) <==> data[..4] == damaged[..4]
  {
    hide Crc, ToUint32;
    var x, y := data[..4], damaged[..4];
    ToUint32IsInjective(data[..32], damaged[..32]);
    assert x == y <==> x[0] == y[0] && x[1] == y[1] && x[2] == y[2] && x[3] == y[3];
  }
}
