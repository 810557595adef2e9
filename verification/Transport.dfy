/** Transport mode: UDP, protocol and IV are inserted behind the original IP header, which stays in place. */
module Transport {
  import opened Bytes
  import opened Checksum
  import opened Cbc
  import opened PacketBuffer
  import Tunnel

  const ETH: nat := 14
  /** Ethernet and IP header. */
  const HEAD: nat := 34
  /** UDP, protocol and IV. */
  const OVERHEAD: nat := 26
  /** Where the sender writes the IV. */
  const IV_AT: nat := 44

  const PROTO_UDP: byte := 17
  const PORT: u16 := 1701

  /** Whole bytes the IP header announces. */
  function TotalLen(f: seq<byte>): u16
    requires |f| >= HEAD
  {
    Field16(f, ETH + 2)
  }

  function WithFields(h: seq<byte>, proto: byte, total: u16): (t: seq<byte>)
    requires |h| == 20
    ensures |t| == 20
  {
    h[2 := Hi(total)][3 := Lo(total)][9 := proto]
  }

  /** Length of the IP header, options included. */
  function IpLen(f: seq<byte>): nat
    requires |f| >= HEAD
  {
    f[ETH] % 16 * 4
  }

  /** Whether the library routine that sums the IP header includes the options; that depends on its version. */
  const SUMS_OPTIONS: bool

  /** What the options add to the header's checksum. */
  function OptionSum(f: seq<byte>): nat
    requires |f| >= HEAD
  {
    if SUMS_OPTIONS && HEAD <= ETH + IpLen(f) <= |f| then WordSum(f[HEAD..ETH + IpLen(f)]) else 0
  }

  /** Protocol and total length of the IP header are replaced and its checksum is made anew. */
  function PatchIp(f: seq<byte>, proto: byte, total: u16): (t: seq<byte>)
    requires |f| >= HEAD
    ensures |t| == |f|
  {
    f[..ETH] + Sealed(WithFields(f[ETH..HEAD], proto, total), 5, OptionSum(f)) + f[HEAD..]
  }

  /** The frame starts with an IP header, with or without options, and holds all bytes the header announces. */
  predicate Carries(f: seq<byte>) {
    |f| >= HEAD && 20 <= IpLen(f) <= TotalLen(f) <= |f| - ETH
  }

  /** Length of the transport part as the program takes it: what the header announces without options. */
  function BodyLen(f: seq<byte>): nat
    requires Carries(f)
  {
    TotalLen(f) - IpLen(f)
  }

  /** What is inserted, the IV still zero; n is the length of the transport part. */
  function Inserted(proto: byte, n: nat): (h: seq<byte>)
    ensures |h| == OVERHEAD
  {
    var len: u16 := (OVERHEAD + n) % U16;
    [Hi(PORT), Lo(PORT), Hi(PORT), Lo(PORT), Hi(len), Lo(len), 0, 0, proto, 0] + Zeros(16)
  }

  /** `room` are the stale bytes that were appended. The transport part is taken from byte 34 on, options or not. */
  function Encapped(f: seq<byte>, room: seq<byte>): (w: seq<byte>)
    requires Carries(f) && |room| == OVERHEAD
    ensures |w| == |f| + OVERHEAD
  {
    var n := BodyLen(f);
    var moved := Overlay(f + room, HEAD + OVERHEAD, f[HEAD..HEAD + n]);
    PatchIp(Overlay(moved, HEAD, Inserted(f[ETH + 9], n)), PROTO_UDP, (TotalLen(f) + OVERHEAD) % U16)
  }

  /** A packet that holds what its header announces. */
  predicate Readable(w: seq<byte>) {
    |w| >= HEAD + OVERHEAD && 20 <= IpLen(w) && TotalLen(w) <= |w| - ETH
  }

  /** Where the receiver reads the IV: behind the options, which the sender does not allow for. */
  function IvPosition(w: seq<byte>): nat
    requires |w| >= HEAD
  {
    ETH + IpLen(w) + 10
  }

  datatype Decap = NotOurs | Stripped(bytes: seq<byte>)

  /** A UDP packet whose header announces at least the overhead; everything announced must be there. */
  function Decapped(w: seq<byte>): (d: Decap)
    requires Readable(w)
    ensures d.Stripped? ==> |d.bytes| == |w| - OVERHEAD && IvPosition(w) + 16 <= |w|
  {
    if w[ETH + 9] != PROTO_UDP || TotalLen(w) < IpLen(w) + OVERHEAD then NotOurs
    else
      var n := TotalLen(w) - IpLen(w) - OVERHEAD;
      var moved := Overlay(w, HEAD, w[HEAD + OVERHEAD..HEAD + OVERHEAD + n]);
      Stripped(PatchIp(moved[..|w| - OVERHEAD], w[HEAD + 8], TotalLen(w) - OVERHEAD))
  }

  /** A packet is not taken for one of ours exactly when it is not UDP or announces less than the overhead behind its
      IP header. */
  lemma {:induction false} NotOursIff(w: seq<byte>)
    requires Readable(w)
    ensures Decapped(w) == NotOurs <==> w[23] != 17 || Field16(w, 16) < w[14] % 16 * 4 + 26
  {
    hide PatchIp;
  }

  // ---------------------------------------------------------------- patching

  /** The header checksum is the one the program would compute. */
  predicate Canonical(f: seq<byte>)
    requires |f| >= HEAD
  {
    Sealed(f[ETH..HEAD], 5, OptionSum(f)) == f[ETH..HEAD]
  }

  lemma {:induction false} PatchIs(f: seq<byte>, p: byte, x: u16)
    requires |f| >= HEAD
    ensures var t := PatchIp(f, p, x);
            && t[..ETH] == f[..ETH] && t[HEAD..] == f[HEAD..]
            && t[ETH..HEAD] == Sealed(WithFields(f[ETH..HEAD], p, x), 5, OptionSum(f))
            && t[ETH] == f[ETH] && OptionSum(t) == OptionSum(f) && t[ETH + 2] == Hi(x) && t[ETH + 3] == Lo(x)
               && t[ETH + 9] == p
  {
    hide Hi, Lo, Sealed, OptionSum;
    var h := WithFields(f[ETH..HEAD], p, x);
    SealedKeeps(h, 5, OptionSum(f));
    var t := PatchIp(f, p, x);
    var s := Sealed(h, 5, OptionSum(f));
    assert t[ETH..HEAD] == s;
    assert t[ETH] == s[0] && t[ETH + 2] == s[2] && t[ETH + 3] == s[3] && t[ETH + 9] == s[9];
    OptionsAlike(f, t);
  }

  lemma {:induction false} OptionsAlike(f: seq<byte>, t: seq<byte>)
    requires |f| == |t| >= HEAD && f[ETH] == t[ETH] && f[HEAD..] == t[HEAD..]
    ensures OptionSum(t) == OptionSum(f)
  {
    hide WordSum;
    if HEAD <= ETH + IpLen(f) <= |f| {
      assert f[HEAD..ETH + IpLen(f)] == f[HEAD..][..ETH + IpLen(f) - HEAD];
      assert t[HEAD..ETH + IpLen(f)] == t[HEAD..][..ETH + IpLen(f) - HEAD];
    }
  }

  lemma {:induction false} NoOptions(f: seq<byte>)
    requires |f| >= HEAD && IpLen(f) == 20
    ensures OptionSum(f) == 0
  {
  }

  /** The header checksum never enters what replaces it. */
  lemma {:induction false} SealedAgain(h: seq<byte>, p: byte, x: u16, q: byte, y: u16, rest: nat)
    requires |h| == 20
    ensures Sealed(WithFields(Sealed(WithFields(h, p, x), 5, rest), q, y), 5, rest)
            == Sealed(WithFields(h, q, y), 5, rest)
  {
    hide Hi, Lo, Fold, WordSum, Not16;
    var h1 := WithFields(h, p, x);
    var c := Not16(Fold(WordSum(Put16(h1, 10, 0)) + rest));
    var t := WithFields(Sealed(h1, 5, rest), q, y);
    assert t == Put16(WithFields(h, q, y), 10, c);
    SealedIsStable(WithFields(h, q, y), 5, c, rest);
  }

  /** Of two patches in a row the second counts. */
  lemma {:induction false} PatchTwice(f: seq<byte>, p: byte, x: u16, q: byte, y: u16)
    requires |f| >= HEAD
    ensures PatchIp(PatchIp(f, p, x), q, y) == PatchIp(f, q, y)
  {
    hide Sealed, WithFields, OptionSum;
    PatchIs(f, p, x);
    SealedAgain(f[ETH..HEAD], p, x, q, y, OptionSum(f));
  }

  /** Patching in the protocol and length a frame already has changes only a checksum that was not canonical. */
  lemma {:induction false} PatchSame(f: seq<byte>)
    requires |f| >= HEAD
    ensures PatchIp(f, f[ETH + 9], TotalLen(f)) == f <==> Canonical(f)
  {
    hide Sealed, Be16, Hi, Lo, OptionSum;
    var h := f[ETH..HEAD];
    HiLoBack(f[ETH + 2], f[ETH + 3]);
    assert WithFields(h, f[ETH + 9], TotalLen(f)) == h;
    PatchIs(f, f[ETH + 9], TotalLen(f));
    assert f == f[..ETH] + h + f[HEAD..];
  }

  // ---------------------------------------------------------------- decapsulation undoes encapsulation

  /** There is room for the overhead in the length field. */
  predicate Sized(f: seq<byte>) {
    Carries(f) && TotalLen(f) + OVERHEAD < U16
  }

  /** The frame whose bytes behind the IP header are sent: what is not moved is replaced by the stale bytes the move
      leaves standing. That is what trails the datagram and, with IP options, the last bytes of the datagram. */
  function Loaded(f: seq<byte>, room: seq<byte>): (g: seq<byte>)
    requires Carries(f) && |room| == OVERHEAD
    ensures |g| == |f|
  {
    f[..HEAD + BodyLen(f)] + (f + room)[HEAD + BodyLen(f) + OVERHEAD..]
  }

  lemma {:induction false} LoadedKeeps(f: seq<byte>, room: seq<byte>)
    requires Carries(f) && |room| == OVERHEAD
    ensures var g := Loaded(f, room);
            && Carries(g) && TotalLen(g) == TotalLen(f) && IpLen(g) == IpLen(f) && g[ETH + 9] == f[ETH + 9]
            && g[HEAD..][..BodyLen(f)] == f[HEAD..HEAD + BodyLen(f)]
  {
    hide Be16;
    var g, n := Loaded(f, room), BodyLen(f);
    assert g[ETH] == f[ETH] && g[ETH + 2] == f[ETH + 2] && g[ETH + 3] == f[ETH + 3] && g[ETH + 9] == f[ETH + 9];
    assert g[HEAD..][..n] == g[HEAD..HEAD + n] == f[HEAD..HEAD + n];
  }

  /** The encapsulated packet: the patched header, then what was inserted, then the rest. */
  lemma {:induction false} EncappedIs(f: seq<byte>, room: seq<byte>)
    requires Sized(f) && |room| == OVERHEAD
    ensures var w := Encapped(f, room);
            && w[HEAD..] == Inserted(f[ETH + 9], BodyLen(f)) + Loaded(f, room)[HEAD..]
            && w[ETH] == f[ETH] && TotalLen(w) == TotalLen(f) + OVERHEAD && w[ETH + 9] == PROTO_UDP
            && (IpLen(f) == 20 ==> w[..HEAD] == PatchIp(f[..HEAD], PROTO_UDP, TotalLen(f) + OVERHEAD))
  {
    hide PatchIp, Inserted, Be16, Hi, Lo, OptionSum;
    var n, total := BodyLen(f), TotalLen(f) + OVERHEAD;
    var ins, body := Inserted(f[ETH + 9], n), Loaded(f, room)[HEAD..];
    var moved := Overlay(f + room, HEAD + OVERHEAD, f[HEAD..HEAD + n]);
    var whole := Overlay(moved, HEAD, ins);
    assert moved[HEAD + OVERHEAD..] == body && moved[..HEAD] == f[..HEAD];
    assert whole == f[..HEAD] + (ins + body);
    assert whole[HEAD..] == ins + body && whole[ETH] == f[ETH];
    PatchIs(whole, PROTO_UDP, total);
    HiLo(total);
    if IpLen(f) == 20 {
      PatchFront(f[..HEAD], ins + body, PROTO_UDP, total);
    }
  }

  /** Without options only the first 34 bytes matter to a patch. */
  lemma {:induction false} PatchFront(front: seq<byte>, rest: seq<byte>, p: byte, x: u16)
    requires |front| == HEAD && IpLen(front) == 20
    ensures PatchIp(front + rest, p, x) == PatchIp(front, p, x) + rest
  {
    NoOptions(front);
    NoOptions(front + rest);
    hide Sealed, WithFields, OptionSum;
    assert (front + rest)[ETH..HEAD] == front[ETH..HEAD];
  }

  /** Decapsulating a packet whose header announces n bytes of what follows the insertion: the rest of it is
      lost and as many bytes of the old packet show up in its place. */
  lemma {:induction false} DecappedIs(w: seq<byte>, ins: seq<byte>, body: seq<byte>, n: nat)
    requires Readable(w) && w[HEAD..] == ins + body && |ins| == OVERHEAD && n <= |body|
    requires w[ETH + 9] == PROTO_UDP && TotalLen(w) == IpLen(w) + OVERHEAD + n
    ensures var d := Decapped(w);
            && d.Stripped? && d.bytes[HEAD..] == body[..n] + (ins + body)[n..|body|]
            && d.bytes[ETH] == w[ETH] && TotalLen(d.bytes) == IpLen(w) + n
            && (IpLen(w) == 20 ==> d.bytes[..HEAD] == PatchIp(w[..HEAD], ins[8], IpLen(w) + n))
  {
    hide PatchIp, Be16, Hi, Lo, OptionSum;
    var front, tail := w[..HEAD], body[..n] + (ins + body)[n..|body|];
    assert w == front + ins + body;
    assert w[HEAD + 8] == ins[8];
    CutMoved(front, ins, body, n);
    var moved := Overlay(w, HEAD, w[HEAD + OVERHEAD..HEAD + OVERHEAD + n])[..|w| - OVERHEAD];
    assert moved == front + tail && moved[HEAD..] == tail && moved[ETH] == w[ETH];
    PatchIs(moved, ins[8], IpLen(w) + n);
    HiLo(IpLen(w) + n);
    if IpLen(w) == 20 {
      PatchFront(front, tail, ins[8], IpLen(w) + n);
    }
  }

  lemma {:induction false} CutMoved(front: seq<byte>, ins: seq<byte>, body: seq<byte>, n: nat)
    requires |front| == HEAD && |ins| == OVERHEAD && n <= |body|
    ensures var w := front + ins + body;
            Overlay(w, HEAD, w[HEAD + OVERHEAD..HEAD + OVERHEAD + n])[..|w| - OVERHEAD]
              == front + (body[..n] + (ins + body)[n..|body|])
  {
    var w := front + ins + body;
    var rest := ins + body;
    assert w == front + rest && w[HEAD..|w|] == rest && rest[OVERHEAD..|rest|] == body;
    SliceOfSlice(rest, OVERHEAD, |rest|, 0, n);
    SliceOfSlice(w, HEAD, |w|, OVERHEAD, OVERHEAD + n);
    SliceOfSlice(w, HEAD, |w|, n, |body|);
    assert w[HEAD + OVERHEAD..HEAD + OVERHEAD + n] == body[..n];
    assert w[HEAD + n..|w| - OVERHEAD] == rest[n..|body|];
  }

  /** The Ethernet and IP header the receiver restores when there are no options; it is the original one exactly if that
      had a canonical checksum. */
  function Front(f: seq<byte>): (h: seq<byte>)
    requires Carries(f)
    ensures |h| == HEAD
  {
    PatchIp(f[..HEAD], f[ETH + 9], TotalLen(f))
  }

  lemma {:induction false} FrontIs(f: seq<byte>)
    requires Carries(f) && IpLen(f) == 20
    ensures Front(f) == f[..HEAD] <==> Canonical(f)
  {
    NoOptions(f);
    NoOptions(f[..HEAD]);
    hide Sealed, Be16, Hi, Lo, PatchIp, OptionSum;
    assert f[..HEAD][ETH..HEAD] == f[ETH..HEAD];
    PatchSame(f[..HEAD]);
  }

  /** The packet starts with the very datagram of f. */
  predicate Arrives(d: Decap, f: seq<byte>)
    requires Carries(f)
  {
    d.Stripped? && |d.bytes| >= ETH + TotalLen(f) && d.bytes[..ETH + TotalLen(f)] == f[..ETH + TotalLen(f)]
  }

  /** Without encryption in between, decapsulating gives back the length and the bytes that were moved. Without options
      these are the transport part, and Ethernet header and datagram come back exactly when the checksum was
      canonical. */
  lemma {:induction false} DecapUndoesEncap(f: seq<byte>, room: seq<byte>)
    requires Sized(f) && |room| == OVERHEAD
    ensures var w := Encapped(f, room);
            && Readable(w) && Decapped(w).Stripped?
            && var d := Decapped(w).bytes;
               && |d| == |f| && TotalLen(d) == TotalLen(f) && d[HEAD..HEAD + BodyLen(f)] == f[HEAD..HEAD + BodyLen(f)]
               && (IpLen(f) == 20 ==> (Arrives(Decapped(w), f) <==> Canonical(f)))
  {
    hide PatchIp, Inserted, Encapped, Decapped, Be16, Canonical, Loaded, Arrives;
    var n, w := BodyLen(f), Encapped(f, room);
    var ins, body := Inserted(f[ETH + 9], n), Loaded(f, room)[HEAD..];
    InsertedProto(f[ETH + 9], n);
    EncappedIs(f, room);
    LoadedKeeps(f, room);
    DecappedIs(w, ins, body, n);
    var d := Decapped(w).bytes;
    assert d[HEAD..][..n] == body[..n];
    if IpLen(f) == 20 {
      PatchTwice(f[..HEAD], PROTO_UDP, TotalLen(f) + OVERHEAD, f[ETH + 9], TotalLen(f));
      assert d[..HEAD] == Front(f);
      FrontIs(f);
      DatagramIs(f, d);
    }
  }

  lemma {:induction false} InsertedProto(proto: byte, n: nat)
    ensures Inserted(proto, n)[8] == proto
  {
    hide Hi, Lo;
  }

  lemma {:induction false} DatagramIs(f: seq<byte>, d: seq<byte>)
    requires Carries(f) && IpLen(f) == 20 && |d| >= ETH + TotalLen(f)
    requires d[HEAD..HEAD + BodyLen(f)] == f[HEAD..HEAD + BodyLen(f)]
    ensures Arrives(Stripped(d), f) <==> d[..HEAD] == f[..HEAD]
  {
    hide Be16;
    var n := BodyLen(f);
    assert d[..HEAD + n] == d[..HEAD] + d[HEAD..HEAD + n] && f[..HEAD + n] == f[..HEAD] + f[HEAD..HEAD + n];
    assert d[..HEAD + n][..HEAD] == d[..HEAD] && f[..HEAD + n][..HEAD] == f[..HEAD];
  }

  /** A frame whose length field has no room for the overhead is sent all the same, and dropped by the receiver. */
  lemma {:induction false} TooLongIsDropped(f: seq<byte>, room: seq<byte>)
    requires Carries(f) && |room| == OVERHEAD && TotalLen(f) + OVERHEAD >= U16
    ensures var w := Encapped(f, room); Readable(w) && Decapped(w) == NotOurs
  {
    hide PatchIp, Inserted, Be16, Hi, Lo, OptionSum;
    var n, total := BodyLen(f), (TotalLen(f) + OVERHEAD) % U16;
    var moved := Overlay(Overlay(f + room, HEAD + OVERHEAD, f[HEAD..HEAD + n]), HEAD, Inserted(f[ETH + 9], n));
    PatchIs(moved, PROTO_UDP, total);
    HiLo(total);
    assert moved[ETH] == f[ETH];
  }

  /** Both length fields of the encapsulated packet are those of what they announce, and the inserted ports are
      L2TP's. */
  lemma {:induction false} LengthsOnWire(f: seq<byte>, room: seq<byte>)
    requires Sized(f) && |room| == OVERHEAD
    ensures var w := Encapped(f, room);
            && |w| - ETH - TotalLen(w) == |f| - ETH - TotalLen(f) && Field16(w, HEAD + 4) == TotalLen(w) - IpLen(w)
            && w[23] == 17 && Field16(w, 34) == 1701 && Field16(w, 36) == 1701 && Field16(w, 40) == 0
            && w[42] == f[23] && w[43] == 0
  {
    hide Be16, Hi, Lo, PatchIp, Encapped, Inserted, Loaded;
    var n := BodyLen(f);
    EncappedIs(f, room);
    InsertedFields(f[ETH + 9], n);
    HiLo(OVERHEAD + n);
    HiLo(PORT);
    HiLo(0);
    Tunnel.ZeroBytes();
    var w, ins := Encapped(f, room), Inserted(f[ETH + 9], n);
    assert w[HEAD..][0] == ins[0] && w[HEAD..][1] == ins[1] && w[HEAD..][2] == ins[2] && w[HEAD..][3] == ins[3];
    assert w[HEAD..][4] == ins[4] && w[HEAD..][5] == ins[5] && w[HEAD..][6] == ins[6] && w[HEAD..][7] == ins[7];
    assert w[HEAD..][8] == ins[8] && w[HEAD..][9] == ins[9];
  }

  lemma {:induction false} InsertedFields(proto: byte, n: nat)
    requires OVERHEAD + n < U16
    ensures var h := Inserted(proto, n);
            && h[0] == h[2] == Hi(PORT) && h[1] == h[3] == Lo(PORT)
            && h[4] == Hi(OVERHEAD + n) && h[5] == Lo(OVERHEAD + n) && h[6] == h[7] == 0 && h[8] == proto && h[9] == 0
  {
    assert (OVERHEAD + n) % U16 == OVERHEAD + n;
    hide Hi, Lo;
  }

  // ---------------------------------------------------------------- with encryption in between

  /** The IV is written into the packet after the padding was added. */
  function ToDevice(w: seq<byte>, iv: Block): (e: seq<byte>)
    requires |w| >= HEAD + OVERHEAD
    ensures |e| == |PadFrom(w, HEAD + OVERHEAD)| && Whole(e[HEAD + OVERHEAD..])
  {
    assert Whole(PadFrom(w, HEAD + OVERHEAD)[HEAD + OVERHEAD..]);
    Overlay(PadFrom(w, HEAD + OVERHEAD), IV_AT, iv)
  }

  /** What leaves the encrypting box. */
  function Sent(c: Cipher, iv: Block, f: seq<byte>, room: seq<byte>): (w: seq<byte>)
    requires Carries(f) && |room| == OVERHEAD
    ensures |w| >= |f| + OVERHEAD
  {
    EncryptFrom(c, iv, ToDevice(Encapped(f, room), iv), HEAD + OVERHEAD)
  }

  /** What the decrypting box makes of it; the IV is read before the packet is decapsulated. */
  function Receive(c: Cipher, w: seq<byte>): Decap
    requires Readable(w)
  {
    match Decapped(w)
    case NotOurs => NotOurs
    case Stripped(d) =>
      var iv: Block := w[IvPosition(w)..IvPosition(w) + 16];
      var e := PadFrom(d, HEAD);
      Stripped(Tunnel.Trimmed(DecryptFrom(c, iv, e, HEAD)))
  }

  /** The transport part and what trails it, padded and encrypted. */
  function Body(c: Cipher, iv: Block, g: seq<byte>): (b: seq<byte>)
    requires |g| >= HEAD
    ensures |b| == |g| - HEAD + PadLen(|g| - HEAD) && Whole(b)
  {
    Encrypt(c, iv, PadFrom(g, HEAD)[HEAD..])
  }

  function WithIv(proto: byte, n: nat, iv: Block): (h: seq<byte>)
    ensures |h| == OVERHEAD && h[8] == proto && h[10..] == iv
  {
    Inserted(proto, n)[..10] + iv
  }

  /** The ciphertext the receiver decrypts: behind the announced bytes stands whatever stood 26 bytes before. */
  function Mangled(c: Cipher, iv: Block, g: seq<byte>): (b: seq<byte>)
    requires Carries(g)
    ensures |b| == |Body(c, iv, g)| && Whole(b)
  {
    var n, body := BodyLen(g), Body(c, iv, g);
    body[..n] + (WithIv(g[ETH + 9], n, iv) + body)[n..|body|]
  }

  /** What the receiver takes for the IV: it begins as many bytes behind the IV as the options are long. */
  function TakenIv(c: Cipher, iv: Block, g: seq<byte>): Block
    requires Carries(g)
  {
    (iv + Body(c, iv, g))[IpLen(g) - 20..IpLen(g) - 4]
  }

  lemma {:induction false} RightIvTaken(c: Cipher, iv: Block, g: seq<byte>)
    requires Carries(g) && IpLen(g) == 20
    ensures TakenIv(c, iv, g) == iv
  {
    hide Body;
  }

  lemma {:induction false} SentIs(c: Cipher, iv: Block, f: seq<byte>, room: seq<byte>)
    requires Sized(f) && |room| == OVERHEAD
    ensures var w, g := Sent(c, iv, f, room), Loaded(f, room);
            && w[HEAD..] == WithIv(f[ETH + 9], BodyLen(f), iv) + Body(c, iv, g)
            && w[..HEAD] == Encapped(f, room)[..HEAD]
  {
    hide PatchIp, Inserted, Encapped, PadLen, Be16, Loaded;
    EncappedIs(f, room);
    var g, e := Loaded(f, room), Encapped(f, room);
    var front, ins := e[..HEAD], Inserted(f[ETH + 9], BodyLen(f));
    assert e == front + e[HEAD..];
    var p := PadFrom(e, HEAD + OVERHEAD);
    assert |e| - HEAD - OVERHEAD == |g| - HEAD;
    assert p == front + ins + PadFrom(g, HEAD)[HEAD..];
    var d := Overlay(p, IV_AT, iv);
    assert d == front + WithIv(f[ETH + 9], BodyLen(f), iv) + PadFrom(g, HEAD)[HEAD..];
    assert d[HEAD + OVERHEAD..] == PadFrom(g, HEAD)[HEAD..];
  }

  /** What decapsulation leaves of the sent packet. */
  lemma {:induction false} StrippedIs(c: Cipher, iv: Block, f: seq<byte>, room: seq<byte>)
    requires Sized(f) && |room| == OVERHEAD
    ensures Carries(Loaded(f, room)) && Readable(Sent(c, iv, f, room))
    ensures var d := Decapped(Sent(c, iv, f, room));
            && d.Stripped? && d.bytes[HEAD..] == Mangled(c, iv, Loaded(f, room)) && TotalLen(d.bytes) == TotalLen(f)
            && (IpLen(f) == 20 ==> d.bytes[..HEAD] == Front(f))
  {
    hide WithIv, Encapped, Decapped, Sent, Body, Be16, PatchIp, Loaded;
    LoadedKeeps(f, room);
    var n, g, w := BodyLen(f), Loaded(f, room), Sent(c, iv, f, room);
    var ins, body := WithIv(f[ETH + 9], n, iv), Body(c, iv, g);
    EncappedIs(f, room);
    SentIs(c, iv, f, room);
    SameHeader(w, Encapped(f, room));
    DecappedIs(w, ins, body, n);
    if IpLen(f) == 20 {
      PatchTwice(f[..HEAD], PROTO_UDP, TotalLen(f) + OVERHEAD, f[ETH + 9], TotalLen(f));
    }
  }

  lemma {:induction false} SameHeader(w: seq<byte>, e: seq<byte>)
    requires |w| >= HEAD && |e| >= HEAD && w[..HEAD] == e[..HEAD]
    ensures w[ETH] == e[ETH] && w[ETH + 2] == e[ETH + 2] && w[ETH + 3] == e[ETH + 3] && w[ETH + 9] == e[ETH + 9]
  {
    assert w[ETH] == w[..HEAD][ETH] && w[ETH + 2] == w[..HEAD][ETH + 2];
    assert w[ETH + 3] == w[..HEAD][ETH + 3] && w[ETH + 9] == w[..HEAD][ETH + 9];
  }

  lemma {:induction false} NothingToPad(front: seq<byte>, s: seq<byte>)
    requires Whole(s)
    ensures PadFrom(front + s, |front|) == front + s
  {
  }

  /** What the receiver gets: a header, the restored one if there are no options, and the decryption of the mangled
      ciphertext, trimmed. */
  lemma {:induction false} ReceiveIs(c: Cipher, iv: Block, f: seq<byte>, room: seq<byte>) returns (h: seq<byte>)
    requires Sized(f) && |room| == OVERHEAD
    ensures |h| == HEAD && TotalLen(h) == TotalLen(f) && (IpLen(f) == 20 ==> h == Front(f))
    ensures var w, g := Sent(c, iv, f, room), Loaded(f, room);
            && Readable(w) && Carries(g)
            && Receive(c, w) == Stripped(Tunnel.Trimmed(h + Decrypt(c, TakenIv(c, iv, g), Mangled(c, iv, g))))
  {
    hide PatchIp, WithIv, Encapped, Sent, Body, Decrypt, Be16, PadLen, Tunnel.Trimmed, Mangled, Decapped, Readable;
    hide Front, Loaded, TakenIv;
    StrippedIs(c, iv, f, room);
    LoadedKeeps(f, room);
    EncappedIs(f, room);
    SentIs(c, iv, f, room);
    var w, g := Sent(c, iv, f, room), Loaded(f, room);
    var bad, d := Mangled(c, iv, g), Decapped(w).bytes;
    h := d[..HEAD];
    SameHeader(w, Encapped(f, room));
    IvRead(c, iv, w, g, f[ETH + 9]);
    assert d == h + bad;
    NothingToPad(h, bad);
    assert d[HEAD..] == bad;
    SameHeader(h, d);
  }

  lemma {:induction false} IvRead(c: Cipher, iv: Block, w: seq<byte>, g: seq<byte>, proto: byte)
    requires Carries(g) && |w| >= HEAD && IpLen(w) == IpLen(g)
    requires w[HEAD..] == WithIv(proto, BodyLen(g), iv) + Body(c, iv, g)
    ensures IvPosition(w) + 16 <= |w| && w[IvPosition(w)..IvPosition(w) + 16] == TakenIv(c, iv, g)
  {
    var ins, body, o := WithIv(proto, BodyLen(g), iv), Body(c, iv, g), IpLen(g) - 20;
    hide WithIv, Body, Be16;
    var rest := ins + body;
    SliceOfSlice(w, HEAD, |w|, 10 + o, 26 + o);
    assert w[HEAD..|w|] == rest;
    assert rest[10..] == iv + body;
    SliceOfSlice(rest, 10, |rest|, o, 16 + o);
    assert rest[10..|rest|] == iv + body;
  }

  /** The trim never reaches the announced bytes, and leaves just them when fewer than 16 bytes follow. */
  lemma {:induction false} TrimIs(h: seq<byte>, p: seq<byte>)
    requires |h| == HEAD && 20 <= TotalLen(h) <= 20 + |p|
    ensures var out, m := Tunnel.Trimmed(h + p), TotalLen(h) - 20;
            && HEAD + m <= |out| && out[..HEAD] == h && out[HEAD..HEAD + m] == p[..m]
            && (|p| < m + 16 ==> |out| == HEAD + m)
  {
    hide Be16;
    var q, m := h + p, TotalLen(h) - 20;
    assert q[ETH + 2] == h[ETH + 2] && q[ETH + 3] == h[ETH + 3];
    assert Field16(q, ETH + 2) == TotalLen(h);
    var out := Tunnel.Trimmed(q);
    WrapsDown(|q| - ETH - TotalLen(h));
    assert out == q[..|out|];
    assert q[HEAD..HEAD + m] == p[..m];
  }

  lemma {:induction false} WrapsDown(x: nat)
    ensures x % U32 <= x && (x < 16 ==> x % U32 == x)
  {
  }

  /** Ethernet header and datagram come out as they went in. */
  predicate Restored(c: Cipher, iv: Block, f: seq<byte>, room: seq<byte>)
    requires Carries(f) && |room| == OVERHEAD
  {
    var w := Sent(c, iv, f, room);
    Readable(w) && Arrives(Receive(c, w), f)
  }

  predicate WholeFrameRestored(c: Cipher, iv: Block, f: seq<byte>, room: seq<byte>)
    requires Carries(f) && |room| == OVERHEAD
  {
    var w := Sent(c, iv, f, room);
    Readable(w) && Receive(c, w) == Stripped(f)
  }

  /** The announced bytes that fill whole blocks. */
  function WholeLen(f: seq<byte>): (k: nat)
    requires Carries(f)
    ensures k <= BodyLen(f) && k % 16 == 0 && (k == 0 || k >= 16) && (BodyLen(f) % 16 == 0 ==> k == BodyLen(f))
  {
    Sixteens(BodyLen(f) / 16);
    BodyLen(f) / 16 * 16
  }

  lemma {:induction false} Sixteens(q: nat)
    ensures q * 16 % 16 == 0 && (q == 0 || q * 16 >= 16)
  {
  }

  /** The right length if nothing trailed the datagram, all whole blocks of what was moved from the second on, the first
      one exactly if `sameIv`, and without options the restored header. */
  predicate BlocksArrive(d: Decap, f: seq<byte>, sameIv: bool)
    requires Carries(f)
  {
    var first, all := HEAD + Min(16, WholeLen(f)), HEAD + WholeLen(f);
    && d.Stripped? && |d.bytes| >= ETH + TotalLen(f) && (TotalLen(f) == |f| - ETH ==> |d.bytes| == |f|)
    && d.bytes[first..all] == f[first..all]
    && (d.bytes[HEAD..first] == f[HEAD..first] <==> WholeLen(f) == 0 || sameIv)
    && (IpLen(f) == 20 ==> sameIv && d.bytes[..HEAD] == Front(f) && d.bytes[HEAD..all] == f[HEAD..all])
  }

  /** Whatever the key, the IV and the length, the whole blocks from the second on come through, and the first
      one if and only if the receiver reads the IV the sender wrote. Without options it does, and the header is
      restored. */
  lemma {:induction false} WholeBlocksRestored(c: Cipher, iv: Block, f: seq<byte>, room: seq<byte>)
    requires Sized(f) && |room| == OVERHEAD && Inverts(c)
    ensures Readable(Sent(c, iv, f, room)) && Carries(Loaded(f, room))
    ensures BlocksArrive(Receive(c, Sent(c, iv, f, room)), f, TakenIv(c, iv, Loaded(f, room)) == iv)
  {
    hide Receive, Sent, Canonical, Decrypt, Encrypt, Readable, PadFrom, Be16, Loaded, Front;
    hide Tunnel.Trimmed, Inverts, WholeLen, TakenIv;
    LoadedKeeps(f, room);
    var h := ReceiveIs(c, iv, f, room);
    var k, g := WholeLen(f), Loaded(f, room);
    var bad, taken := Mangled(c, iv, g), TakenIv(c, iv, g);
    MangledPrefix(c, iv, g, k);
    PrefixSurvives(c, iv, PadFrom(g, HEAD)[HEAD..], bad, k);
    TrimIs(h, Decrypt(c, taken, bad));
    Joined(f, g, Decrypt(c, iv, bad), k);
    if IpLen(f) == 20 {
      RightIvTaken(c, iv, g);
    }
    if k > 0 {
      IvOnlyFirst(c, taken, iv, bad);
    }
    Compared(f, Decrypt(c, iv, bad), Decrypt(c, taken, bad), Receive(c, Sent(c, iv, f, room)).bytes, taken == iv);
  }

  lemma {:induction false} MangledPrefix(c: Cipher, iv: Block, g: seq<byte>, k: nat)
    requires Carries(g) && k <= BodyLen(g)
    ensures k <= |Body(c, iv, g)| && Mangled(c, iv, g)[..k] == Body(c, iv, g)[..k]
  {
    hide Body, WithIv, Be16;
  }

  lemma {:induction false} Joined(f: seq<byte>, g: seq<byte>, p: seq<byte>, k: nat)
    requires Carries(f) && |g| == |f| && g[HEAD..][..BodyLen(f)] == f[HEAD..HEAD + BodyLen(f)]
    requires k <= BodyLen(f) && k <= |p| && p[..k] == PadFrom(g, HEAD)[HEAD..][..k]
    ensures p[..k] == f[HEAD..HEAD + k]
  {
    hide Be16;
    assert PadFrom(g, HEAD)[HEAD..][..k] == g[HEAD..][..BodyLen(f)][..k];
    assert f[HEAD..HEAD + k] == f[HEAD..HEAD + BodyLen(f)][..k];
  }

  /** The right plaintext p and the one the receiver gets differ in the first block, or not at all. */
  lemma {:induction false} Compared(f: seq<byte>, p: seq<byte>, q: seq<byte>, out: seq<byte>, sameIv: bool)
    requires Carries(f) && WholeLen(f) <= |p| == |q| && p[..WholeLen(f)] == f[HEAD..HEAD + WholeLen(f)]
    requires var m := TotalLen(f) - 20; m <= |q| && HEAD + m <= |out| && out[HEAD..HEAD + m] == q[..m]
    requires WholeLen(f) > 0 ==> |p| >= 16 && q[16..] == p[16..] && (q[..16] == p[..16] <==> sameIv)
    ensures var first, all := HEAD + Min(16, WholeLen(f)), HEAD + WholeLen(f);
            && out[first..all] == f[first..all]
            && (out[HEAD..first] == f[HEAD..first] <==> WholeLen(f) == 0 || sameIv)
            && (sameIv ==> out[HEAD..all] == f[HEAD..all])
  {
    hide Be16, WholeLen;
    var k, m := WholeLen(f), TotalLen(f) - 20;
    SliceOfSlice(out, HEAD, HEAD + m, 0, k);
    SliceOfSlice(q, 0, m, 0, k);
    assert out[HEAD..HEAD + k] == q[..k];
    if k > 0 {
      Parted(out, q, k);
      Parted(f, p, k);
      SliceOfSlice(q, 16, |q|, 0, k - 16);
      SliceOfSlice(p, 16, |p|, 0, k - 16);
      assert q[16..|q|] == q[16..] && p[16..|p|] == p[16..];
    }
  }

  lemma {:induction false} Parted(s: seq<byte>, p: seq<byte>, k: nat)
    requires 16 <= k <= |p| && HEAD + k <= |s| && s[HEAD..HEAD + k] == p[..k]
    ensures s[HEAD..HEAD + 16] == p[..16] && s[HEAD + 16..HEAD + k] == p[16..k]
    ensures s[HEAD..HEAD + k] == s[HEAD..HEAD + 16] + s[HEAD + 16..HEAD + k]
  {
    SliceOfSlice(s, HEAD, HEAD + k, 0, 16);
    SliceOfSlice(s, HEAD, HEAD + k, 16, k);
    SliceOfSlice(p, 0, k, 0, 16);
    SliceOfSlice(p, 0, k, 16, k);
    assert p[0..k] == p[..k];
  }

  lemma {:induction false} WholeMeansRestored(c: Cipher, iv: Block, f: seq<byte>, room: seq<byte>)
    requires Sized(f) && IpLen(f) == 20 && Canonical(f) && |room| == OVERHEAD && Inverts(c) && BodyLen(f) % 16 == 0
    ensures Restored(c, iv, f, room)
  {
    hide Receive, Sent, Canonical, Readable, Front, Inverts, Be16, Arrives;
    WholeBlocksRestored(c, iv, f, room);
    FrontIs(f);
    assert WholeLen(f) == BodyLen(f);
    DatagramIs(f, Receive(c, Sent(c, iv, f, room)).bytes);
  }

  // ---------------------------------------------------------------- what is lost

  /** Byte 15 of the block in which the moved bytes end stood 26 bytes before. */
  lemma {:induction false} Stale(c: Cipher, iv: Block, g: seq<byte>, k: nat)
    requires Carries(g) && k == BodyLen(g) / 16 * 16 && k + 16 <= |Body(c, iv, g)|
    ensures var body := Body(c, iv, g); Mangled(c, iv, g)[k + 15] == if k == 0 then iv[5] else body[k - 11]
  {
    hide Be16, Body;
    var n, body := BodyLen(g), Body(c, iv, g);
    var ins := WithIv(g[ETH + 9], n, iv);
    assert Mangled(c, iv, g)[k + 15] == (ins + body)[k + 15];
    assert ins[15] == ins[10..][5];
  }

  /** The block in which n bytes of m end, unless they are all of the m bytes and fill whole blocks. */
  lemma {:induction false} LastBlock(n: nat, m: nat)
    requires n <= m && (n < m || n % 16 != 0)
    ensures var k := n / 16 * 16; k <= n && k + 16 <= m + PadLen(m) && k % 16 == 0 && (k > 0 ==> k >= 16)
    ensures var k := n / 16 * 16; n < m || k < n
  {
  }

  lemma {:induction false} Columns(k: nat)
    requires k % 16 == 0 && k >= 16
    ensures (k - 11) % 16 == 5 && (k - 16) % 16 == 0
  {
  }

  /** Two IVs that differ in byte 5, under a permutation that swaps first and last byte: byte k of what is decrypted
      out of the mangled ciphertext differs, too. */
  lemma {:induction false} IvShows(g: seq<byte>, a: Block, b: Block, k: nat)
    requires Carries(g) && k == BodyLen(g) / 16 * 16 && k % 16 == 0 && (k > 0 ==> k >= 16)
    requires k + 16 <= |g| - HEAD + PadLen(|g| - HEAD) && b == a[5 := b[5]] && a[5] != b[5]
    ensures Taken(a, g)[k] != Taken(b, g)[k]
  {
    hide Mangled, PadFrom, Encrypt, Be16, PadLen, Decrypt, XorByte, TakenIv;
    var p := PadFrom(g, HEAD)[HEAD..];
    Stale(SWAP, a, g, k);
    Stale(SWAP, b, g, k);
    var x, y := Mangled(SWAP, a, g), Mangled(SWAP, b, g);
    ByteAt(TakenIv(SWAP, a, g), x, k);
    ByteAt(TakenIv(SWAP, b, g), y, k);
    TakenAlike(g, a, b);
    if k > 0 {
      Columns(k);
      FifthColumnAt(a, b, p, k - 11);
      FifthColumnAt(a, b, p, k - 16);
      KeptByte(SWAP, a, g, k);
      KeptByte(SWAP, b, g, k);
    }
    XorCancels(if k == 0 then TakenIv(SWAP, a, g)[0] else x[k - 16], x[k + 15], y[k + 15]);
  }

  /** What the receiver decrypts under that permutation, with the IV it takes. */
  function Taken(iv: Block, g: seq<byte>): (p: seq<byte>)
    requires Carries(g)
    ensures |p| == |Body(SWAP, iv, g)|
  {
    Decrypt(SWAP, TakenIv(SWAP, iv, g), Mangled(SWAP, iv, g))
  }

  /** The first byte taken for the IV does not depend on byte 5 of the IV: options come in words of four bytes. */
  lemma {:induction false} TakenAlike(g: seq<byte>, a: Block, b: Block)
    requires Carries(g) && b == a[5 := b[5]] && a[5] != b[5]
    ensures TakenIv(SWAP, a, g)[0] == TakenIv(SWAP, b, g)[0]
  {
    hide Encrypt, Be16, PadFrom;
    var o, p := IpLen(g) - 20, PadFrom(g, HEAD)[HEAD..];
    if o >= 16 && o - 16 < |p| {
      WordsOfFour(g[ETH] % 16);
      FifthColumnAt(a, b, p, o - 16);
    }
  }

  lemma {:induction false} WordsOfFour(ihl: nat)
    requires ihl < 16
    ensures (ihl * 4 - 36) % 16 != 5
  {
  }

  lemma {:induction false} KeptByte(c: Cipher, iv: Block, g: seq<byte>, k: nat)
    requires Carries(g) && 16 <= k <= BodyLen(g)
    ensures k <= |Body(c, iv, g)| && Mangled(c, iv, g)[k - 16] == Body(c, iv, g)[k - 16]
  {
    hide Body, Be16;
  }

  lemma {:induction false} ByteAt(iv: Block, x: seq<byte>, k: nat)
    requires Whole(x) && k % 16 == 0 && k + 16 <= |x| && (k > 0 ==> k >= 16)
    ensures Decrypt(SWAP, iv, x)[k] == XorByte(x[k + 15], if k == 0 then iv[0] else x[k - 16])
  {
    hide Decrypt, XorByte;
    DecryptPrefix(SWAP, iv, x, k + 16);
    assert Decrypt(SWAP, iv, x)[k] == Decrypt(SWAP, iv, x)[..k + 16][k];
    SwapLast(iv, x[..k + 16], k);
  }

  /** The moved bytes end inside a cipher block, or, because of IP options, before the datagram does. */
  predicate EndsEarly(f: seq<byte>)
    requires Carries(f)
  {
    BodyLen(f) % 16 != 0 || IpLen(f) > 20
  }

  /** Then a byte of the datagram is lost under some key and IV. */
  lemma {:induction false} PartialBlockLost(f: seq<byte>, room: seq<byte>) returns (c: Cipher, iv: Block)
    requires Sized(f) && |room| == OVERHEAD && EndsEarly(f)
    ensures Inverts(c) && !Restored(c, iv, f, room)
  {
    hide Receive, Sent, Taken, Inverts, Loaded, Be16, PadLen;
    c := SWAP;
    SwapInverts();
    LoadedKeeps(f, room);
    var g, k, m := Loaded(f, room), BodyLen(f) / 16 * 16, TotalLen(f) - 20;
    LastBlock(BodyLen(f), m);
    PadGrows(m, |f| - HEAD);
    var a: Block := Zeros(16);
    var b: Block := a[5 := 1];
    IvShows(g, a, b, k);
    iv := if Taken(a, g)[k] != f[HEAD + k] then a else b;
    ByteArrives(iv, f, room, k);
  }

  lemma {:induction false} PadGrows(m: nat, n: nat)
    requires m <= n
    ensures m + PadLen(m) <= n + PadLen(n)
  {
  }

  lemma {:induction false} ByteArrives(iv: Block, f: seq<byte>, room: seq<byte>, k: nat)
    requires Sized(f) && |room| == OVERHEAD && k < TotalLen(f) - 20 && Carries(Loaded(f, room))
    requires Taken(iv, Loaded(f, room))[k] != f[HEAD + k]
    ensures !Restored(SWAP, iv, f, room)
  {
    hide Receive, Sent, Mangled, Decrypt, Loaded, Be16, Tunnel.Trimmed, Readable, Front, TakenIv;
    var h := ReceiveIs(SWAP, iv, f, room);
    var p := Taken(iv, Loaded(f, room));
    TrimIs(h, p);
    var out, m := Receive(SWAP, Sent(SWAP, iv, f, room)).bytes, TotalLen(f) - 20;
    assert out[HEAD + k] == out[HEAD..HEAD + m][k] == p[..m][k];
    assert out[..HEAD + m][HEAD + k] == out[HEAD + k] && f[..HEAD + m][HEAD + k] == f[HEAD + k];
  }

  lemma {:induction false} HeaderLost(c: Cipher, iv: Block, f: seq<byte>, room: seq<byte>)
    requires Sized(f) && IpLen(f) == 20 && !Canonical(f) && |room| == OVERHEAD && Inverts(c)
    ensures !Restored(c, iv, f, room)
  {
    hide Receive, Sent, Canonical, Readable, Front, Inverts, Be16;
    WholeBlocksRestored(c, iv, f, room);
    FrontIs(f);
    var n, out := BodyLen(f), Receive(c, Sent(c, iv, f, room)).bytes;
    assert out[..HEAD] == out[..HEAD + n][..HEAD] && f[..HEAD] == f[..HEAD + n][..HEAD];
  }

  // ---------------------------------------------------------------- the first block of a frame with options

  /** One of two IVs is not the one the receiver takes for it. */
  lemma {:induction false} WrongIvTaken(g: seq<byte>) returns (iv: Block)
    requires Carries(g) && IpLen(g) > 20
    ensures TakenIv(ROTATION, iv, g) != iv
  {
    hide Encrypt, Be16, PadFrom;
    var a: Block := Zeros(16);
    var b: Block := a[5 := 1];
    var o, p := IpLen(g) - 20, PadFrom(g, HEAD)[HEAD..];
    ChangeTravels(a, b, p, o + 5);
    assert TakenIv(ROTATION, a, g)[5] == (a + Encrypt(ROTATION, a, p))[o + 5];
    assert TakenIv(ROTATION, b, g)[5] == (b + Encrypt(ROTATION, b, p))[o + 5];
    iv := if TakenIv(ROTATION, a, g)[5] != a[5] then a else b;
  }

  /** The first whole block comes through under every key and IV if and only if there are no options. */
  lemma {:induction false} FirstBlockIff(f: seq<byte>, room: seq<byte>)
    requires Sized(f) && |room| == OVERHEAD && BodyLen(f) >= 16
    ensures (forall c: Cipher, iv: Block :: Inverts(c) ==> FirstBlockArrives(c, iv, f, room)) <==> IpLen(f) == 20
  {
    hide Receive, Sent, Readable, Front, Inverts, Be16, Loaded, TakenIv, FirstBlockArrives;
    if IpLen(f) == 20 {
      forall c: Cipher, iv: Block | Inverts(c) ensures FirstBlockArrives(c, iv, f, room) {
        FirstBlock(c, iv, f, room);
        LoadedKeeps(f, room);
        RightIvTaken(c, iv, Loaded(f, room));
      }
    } else {
      LoadedKeeps(f, room);
      RotationInverts();
      var iv := WrongIvTaken(Loaded(f, room));
      FirstBlock(ROTATION, iv, f, room);
    }
  }

  predicate FirstBlockArrives(c: Cipher, iv: Block, f: seq<byte>, room: seq<byte>)
    requires Carries(f) && |room| == OVERHEAD
  {
    var w := Sent(c, iv, f, room);
    && Readable(w) && Receive(c, w).Stripped? && |Receive(c, w).bytes| >= HEAD + 16 && |f| >= HEAD + 16
    && Receive(c, w).bytes[HEAD..HEAD + 16] == f[HEAD..HEAD + 16]
  }

  lemma {:induction false} FirstBlock(c: Cipher, iv: Block, f: seq<byte>, room: seq<byte>)
    requires Sized(f) && |room| == OVERHEAD && BodyLen(f) >= 16 && Inverts(c)
    ensures Carries(Loaded(f, room))
    ensures FirstBlockArrives(c, iv, f, room) <==> TakenIv(c, iv, Loaded(f, room)) == iv
  {
    hide Receive, Sent, Readable, Front, Inverts, Be16, Loaded, TakenIv;
    WholeBlocksRestored(c, iv, f, room);
    assert WholeLen(f) >= 16;
  }

  /** An input: six words of header, any transport part of at least a block, no encryption at all, and an IV whose first
      and fifth byte differ. The first byte behind the fixed header comes out wrong. */
  lemma {:induction false} OptionsGarbleFirstByte(iv: Block, f: seq<byte>, room: seq<byte>)
    requires Sized(f) && |room| == OVERHEAD && IpLen(f) == 24 && BodyLen(f) >= 16 && iv[4] != iv[0]
    ensures var w := Sent(IDENTITY, iv, f, room);
            && Readable(w) && Receive(IDENTITY, w).Stripped?
            && |Receive(IDENTITY, w).bytes| > HEAD && Receive(IDENTITY, w).bytes[HEAD] != f[HEAD]
  {
    hide Receive, Sent, Mangled, Decrypt, Encrypt, Loaded, Be16, Tunnel.Trimmed, Readable, Front, Xor, PadFrom, TakenIv;
    LoadedKeeps(f, room);
    var h := ReceiveIs(IDENTITY, iv, f, room);
    var g := Loaded(f, room);
    var bad, taken := Mangled(IDENTITY, iv, g), TakenIv(IDENTITY, iv, g);
    TrimIs(h, Decrypt(IDENTITY, taken, bad));
    MangledPrefix(IDENTITY, iv, g, 16);
    PrefixSurvives(IDENTITY, iv, PadFrom(g, HEAD)[HEAD..], bad, 16);
    Joined(f, g, Decrypt(IDENTITY, iv, bad), 16);
    FirstBytes(IDENTITY, taken, iv, bad);
    assert taken[0] == iv[4] by { TakenFirst(IDENTITY, iv, g); }
    var out, m := Receive(IDENTITY, Sent(IDENTITY, iv, f, room)).bytes, TotalLen(f) - 20;
    assert out[HEAD] == out[HEAD..HEAD + m][0];
    assert f[HEAD] == f[HEAD..HEAD + 16][0];
  }

  lemma {:induction false} TakenFirst(c: Cipher, iv: Block, g: seq<byte>)
    requires Carries(g) && IpLen(g) == 24
    ensures TakenIv(c, iv, g)[0] == iv[4]
  {
    hide Body;
  }

  lemma {:induction false} FirstBytes(c: Cipher, a: Block, b: Block, x: seq<byte>)
    requires Whole(x) && |x| >= 16
    ensures Decrypt(c, a, x)[0] == Decrypt(c, b, x)[0] <==> a[0] == b[0]
  {
    hide XorByte;
    XorCancels(c.dec(x[..16])[0], a[0], b[0]);
  }

  // ---------------------------------------------------------------- the exact conditions

  /** The exact condition for a datagram to survive whatever the key and the IV are. */
  lemma {:induction false} RestoredIff(f: seq<byte>, room: seq<byte>)
    requires Sized(f) && |room| == OVERHEAD
    ensures (forall c: Cipher, iv: Block :: Inverts(c) ==> Restored(c, iv, f, room))
            <==> IpLen(f) == 20 && Canonical(f) && BodyLen(f) % 16 == 0
  {
    hide Restored, Canonical, Inverts, Be16;
    if EndsEarly(f) {
      var c, iv := PartialBlockLost(f, room);
    } else if !Canonical(f) {
      SwapInverts();
      HeaderLost(SWAP, Zeros(16), f, room);
    } else {
      forall c: Cipher, iv: Block | Inverts(c) ensures Restored(c, iv, f, room) {
        WholeMeansRestored(c, iv, f, room);
      }
    }
  }

  /** A frame that ends with its datagram comes back as a whole exactly when the datagram does. */
  lemma {:induction false} WholeFrameIff(c: Cipher, iv: Block, f: seq<byte>, room: seq<byte>)
    requires Sized(f) && TotalLen(f) == |f| - ETH && |room| == OVERHEAD && Inverts(c)
    ensures WholeFrameRestored(c, iv, f, room) <==> Restored(c, iv, f, room)
  {
    hide Receive, Sent, Canonical, Readable, Front, Inverts, Be16;
    WholeBlocksRestored(c, iv, f, room);
    var out := Receive(c, Sent(c, iv, f, room)).bytes;
    assert out[..|f|] == out && f[..|f|] == f;
  }
}
