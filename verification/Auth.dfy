/** AACS-Auth between a host and a drive (mmc.c, and the fixed-width integers
    and the bus key of crypto.c).  The host is an object that sends commands; a
    drive is any function from the commands sent so far to its reply. */
module Auth {
  import opened Bytes
  import Cmac

  // ------------------------------------------------------------------
  // Cryptography, as parameters

  datatype Point = Point(x: nat, y: nat)

  datatype Crypto = Crypto(
    cipher: BlockCipher,
    generator: Point,
    mul: (nat, Point) -> Point,
    sign: (seq<Byte>, seq<Byte>, seq<Byte>) -> Option<(nat, nat)>, // public key, private key, data
    verify: (seq<Byte>, nat, nat, seq<Byte>) -> bool, // public key, r, s, data
    ownKeys: (seq<Byte>, seq<Byte>) -> bool) // a public key and its private key
  {
    /** Coordinates and the two parts of a signature have at most twenty bytes. */
    ghost predicate Fitting() {
      && (forall k, p :: Fits(mul(k, p).x) && Fits(mul(k, p).y))
      && (forall pub, priv, data :: sign(pub, priv, data).Some? ==>
            Fits(sign(pub, priv, data).value.0) && Fits(sign(pub, priv, data).value.1))
    }

    /** Scalar multiplication commutes, and own signatures verify. */
    ghost predicate Lawful() {
      && (forall a, b :: mul(a, mul(b, generator)) == mul(b, mul(a, generator)))
      && (forall pub, priv, data :: ownKeys(pub, priv) ==>
            && sign(pub, priv, data).Some?
            && verify(pub, sign(pub, priv, data).value.0, sign(pub, priv, data).value.1, data))
    }
  }

  // ------------------------------------------------------------------
  // Integers of fixed width

  // What gcry_mpi_print writes: no leading zero bytes, nothing for zero.
  function Minimal(v: nat): (s: seq<Byte>) {
    if v == 0 then [] else Minimal(v / 256) + [v % 256]
  }

  const WIDTH: nat := 20

  predicate Fits(v: nat) {
    |Minimal(v)| <= WIDTH
  }

  /** Zeros on the left complete it to n bytes, and keep its value. */
  lemma {:induction false} PaddedMinimal(v: nat, n: nat)
    requires |Minimal(v)| <= n
    ensures Zeros(n - |Minimal(v)|) + Minimal(v) == Fixed(v, n)
    ensures Value(Fixed(v, n)) == v
    decreases n
  {
    if n > 0 {
      PaddedMinimal(v / 256, n - 1);
      assert Fixed(v, n)[..n - 1] == Fixed(v / 256, n - 1);
      if v == 0 {
        assert Zeros(n) == Zeros(n - 1) + [0];
      }
    }
  }

  function Written(s: seq<Byte>, at: nat, t: seq<Byte>): (r: seq<Byte>)
    requires at + |t| <= |s|
    ensures |r| == |s|
  {
    s[..at] + t + s[at + |t|..]
  }

  // memcpy, memmove, memset
  method Store(out: array<Byte>, at: nat, s: seq<Byte>)
    requires at + |s| <= out.Length
    modifies out
    ensures out[..] == Written(old(out[..]), at, s)
  {
    forall i | 0 <= i < |s| {
      out[at + i] := s[i];
    }
  }

  // What is printed at the left end of a field is copied to its right end, and
  // zeros are put in front.
  method MoveRight(out: array<Byte>, at: nat, width: nat, n: nat)
    requires at + width <= out.Length && n <= width
    modifies out
    ensures out[..] == Written(old(out[..]), at, Zeros(width - n) + old(out[..])[at..at + n])
  {
    ghost var s := out[..];
    var bin := out[at..at + n];
    var zeros := Zeros(width - n);
    Store(out, at + width - n, bin);
    ghost var m := out[..];
    assert bin == s[at..at + n] && m == Written(s, at + width - n, bin);
    Store(out, at, zeros);
    assert out[..] == Written(m, at, zeros);
    MovedRight(s, at, width, n, m, zeros);
  }

  lemma MovedRight(s: seq<Byte>, at: nat, width: nat, n: nat, m: seq<Byte>, zeros: seq<Byte>)
    requires at + width <= |s| && n <= width && |zeros| == width - n && m == Written(s, at + width - n, s[at..at + n])
    ensures Written(m, at, zeros) == Written(s, at, zeros + s[at..at + n])
  {
    var bin, k := s[at..at + n], at + width - n;
    assert m == s[..k] + (bin + s[at + width..]) && m[k..] == bin + s[at + width..];
    assert m[..at] == s[..at];
    assert s[..at] + zeros + (bin + s[at + width..]) == s[..at] + (zeros + bin) + s[at + width..];
  }

  /** The number is printed at out[at] and moved to the right end of its field. */
  method PrintPadded(out: array<Byte>, at: nat, width: nat, v: nat)
    requires at + width <= out.Length && |Minimal(v)| <= width
    modifies out
    ensures out[..] == Written(old(out[..]), at, Fixed(v, width))
  {
    var bin := Minimal(v);
    ghost var s := out[..];
    ghost var field := Zeros(width - |bin|) + bin;
    Store(out, at, bin);
    WrittenTwice(s, at, bin, field);
    if |bin| < width {
      MoveRight(out, at, width, |bin|);
    } else {
      assert field == bin;
    }
    PaddedMinimal(v, width);
  }

  lemma WrittenTwice(s: seq<Byte>, at: nat, bin: seq<Byte>, field: seq<Byte>)
    requires |bin| <= |field| && at + |field| <= |s|
    ensures Written(s, at, bin)[at..at + |bin|] == bin
    ensures Written(Written(s, at, bin), at, field) == Written(s, at, field)
  {
    assert Written(s, at, bin)[..at] == s[..at];
  }

  // Two numbers side by side: a point, or a signature.
  function Pair(x: nat, y: nat): (s: seq<Byte>)
    ensures |s| == 40
  {
    Fixed(x, 20) + Fixed(y, 20)
  }

  function First(s: seq<Byte>): nat
    requires |s| == 40
  {
    Value(s[..20])
  }

  function Second(s: seq<Byte>): nat
    requires |s| == 40
  {
    Value(s[20..])
  }

  /** The padding keeps the numbers. */
  lemma PairKeeps(x: nat, y: nat)
    requires Fits(x) && Fits(y)
    ensures First(Pair(x, y)) == x && Second(Pair(x, y)) == y
  {
    PaddedMinimal(x, 20);
    PaddedMinimal(y, 20);
  }

  method PrintPair(x: nat, y: nat) returns (s: seq<Byte>)
    requires Fits(x) && Fits(y)
    ensures s == Pair(x, y)
  {
    var out := new Byte[40];
    PrintPadded(out, 0, WIDTH, x);
    assert out[..20] == Fixed(x, 20);
    PrintPadded(out, WIDTH, WIDTH, y);
    s := out[..];
  }

  function Encode(p: Point): seq<Byte> {
    Pair(p.x, p.y)
  }

  function Decode(s: seq<Byte>): Point
    requires |s| == 40
  {
    Point(First(s), Second(s))
  }

  // crypto_create_host_key_pair, from the random number drawn
  method CreateHostKeyPair(c: Crypto, hostKey: seq<Byte>) returns (hostKeyPoint: seq<Byte>)
    requires c.Fitting()
    ensures hostKeyPoint == Encode(c.mul(Value(hostKey), c.generator))
    ensures Decode(hostKeyPoint) == c.mul(Value(hostKey), c.generator)
  {
    var q := c.mul(Value(hostKey), c.generator);
    hostKeyPoint := PrintPair(q.x, q.y);
    PairKeeps(q.x, q.y);
  }

  // crypto_create_bus_key.  With fewer than sixteen bytes it would read what
  // lies in front of its buffer; that is the parameter stray.
  function BusKey(c: Crypto, priv: seq<Byte>, point: seq<Byte>, stray: seq<Byte> -> Block): Block
    requires |point| == 40
  {
    var bin := Minimal(c.mul(Value(priv), Decode(point)).x);
    if |bin| >= 16 then bin[|bin| - 16..] else stray(bin)
  }

  // The lowest 128 bits of a number of twenty bytes.
  function Low128(x: nat): Block {
    Fixed(x, 20)[4..]
  }

  lemma LowBytes(x: nat, width: nat, n: nat)
    requires n <= |Minimal(x)| <= width
    ensures Minimal(x)[|Minimal(x)| - n..] == Fixed(x, width)[width - n..]
  {
    var bin := Minimal(x);
    PaddedMinimal(x, width);
    assert (Zeros(width - |bin|) + bin)[width - n..] == bin[|bin| - n..];
  }

  /** Host and drive derive one bus key, if the shared x-coordinate has at least
      sixteen bytes: its lowest 128 bits. */
  lemma SameBusKey(c: Crypto, host: nat, drive: nat, hostKey: seq<Byte>, stray: seq<Byte> -> Block)
    requires c.Lawful() && c.Fitting() && host == Value(hostKey)
    requires |Minimal(c.mul(host, c.mul(drive, c.generator)).x)| >= 16
    ensures BusKey(c, hostKey, Encode(c.mul(drive, c.generator)), stray)
         == Low128(c.mul(drive, c.mul(host, c.generator)).x)
  {
    var dv := c.mul(drive, c.generator);
    PairKeeps(dv.x, dv.y);
    LowBytes(c.mul(host, dv).x, WIDTH, 16);
  }

  // A block that differs from another one.
  function Other(b: Block): (r: Block)
    ensures r != b
  {
    b[0 := if b[0] == 0 then 1 else 0]
  }

  /** Whatever lies in front of the buffer: they derive one bus key if and only if
      the shared x-coordinate has at least sixteen bytes. */
  lemma SameBusKeyIff(c: Crypto, host: nat, drive: nat, hostKey: seq<Byte>)
    requires c.Lawful() && c.Fitting() && host == Value(hostKey)
    ensures (forall stray: seq<Byte> -> Block ::
               BusKey(c, hostKey, Encode(c.mul(drive, c.generator)), stray)
               == Low128(c.mul(drive, c.mul(host, c.generator)).x))
            <==> |Minimal(c.mul(host, c.mul(drive, c.generator)).x)| >= 16
  {
    var dv := c.mul(drive, c.generator);
    var shared := Low128(c.mul(drive, c.mul(host, c.generator)).x);
    PairKeeps(dv.x, dv.y);
    if |Minimal(c.mul(host, dv).x)| >= 16 {
      forall stray: seq<Byte> -> Block
        ensures BusKey(c, hostKey, Encode(dv), stray) == shared
      {
        SameBusKey(c, host, drive, hostKey, stray);
      }
    } else {
      var stray: seq<Byte> -> Block := bin => Other(shared);
      assert BusKey(c, hostKey, Encode(dv), stray) != shared;
    }
  }

  // ------------------------------------------------------------------
  // Certificates and signatures

  function AacsLaKey(): Bytes40 {
    Pair(0x63C21DFFB2B2798A13B58D61166C4E4AAC8A0772, 0x137EC638818FD98FA4C30B996728BF4B917F6A27)
  }

  type Cert = s: seq<Byte> | |s| == 92 witness seq(92, _ => 0)
  type Nonce = s: seq<Byte> | |s| == 20 witness seq(20, _ => 0)
  type Bytes40 = s: seq<Byte> | |s| == 40 witness seq(40, _ => 0)

  const HOST_CERT: Byte := 0x02
  const DRIVE_CERT: Byte := 0x01
  const DRIVE_CERT_AACS2: Byte := 0x11

  function PublicKey(cert: Cert): Bytes40 {
    cert[12..52]
  }

  predicate SignatureOk(c: Crypto, pub: Bytes40, signature: Bytes40, data: seq<Byte>) {
    c.verify(pub, First(signature), Second(signature), data)
  }

  // crypto_aacs_verify_drive_cert, crypto_aacs_verify_host_cert
  predicate CertOk(c: Crypto, cert: Cert, kind: Byte) {
    cert[0] == kind && BE16(cert, 2) == 0x5c && SignatureOk(c, AacsLaKey(), cert[52..92], cert[..52])
  }

  // crypto_aacs_sign
  method Sign(c: Crypto, cert: Cert, priv: seq<Byte>, nonce: Nonce, point: Bytes40) returns (signature: Option<Bytes40>)
    requires c.Fitting()
    ensures signature == Signature(c, cert, priv, nonce + point)
  {
    var rs := c.sign(PublicKey(cert), priv, nonce + point);
    if rs.None? {
      return None;
    }
    var s := PrintPair(rs.value.0, rs.value.1);
    signature := Some(s);
  }

  function Signature(c: Crypto, cert: Cert, priv: seq<Byte>, data: seq<Byte>): Option<Bytes40> {
    match c.sign(PublicKey(cert), priv, data)
    case None => None
    case Some(rs) => Some(Pair(rs.0, rs.1))
  }

  /** Signing and verifying through the padded form. */
  lemma OwnSignatureVerifies(c: Crypto, cert: Cert, priv: seq<Byte>, data: seq<Byte>)
    requires c.Lawful() && c.Fitting() && c.ownKeys(PublicKey(cert), priv)
    ensures Signature(c, cert, priv, data).Some?
    ensures SignatureOk(c, PublicKey(cert), Signature(c, cert, priv, data).value, data)
  {
    var rs := c.sign(PublicKey(cert), priv, data).value;
    PairKeeps(rs.0, rs.1);
  }

  // ------------------------------------------------------------------
  // Commands

  datatype Command =
    | ReportKey(agid: nat, format: nat, len: nat)
    | SendKey(agid: nat, format: nat, data: seq<Byte>)
    | ReadStructure(agid: nat, format: nat, len: nat)

  // The sixteen bytes of the command.
  function Cdb(cmd: Command): seq<Byte>
    requires cmd.agid < 4
    requires cmd.format < if cmd.ReadStructure? then 256 else 64
    requires if cmd.SendKey? then |cmd.data| < 0x1_0000 else cmd.len < 0x1_0000
  {
    match cmd
    case ReportKey(agid, format, len) =>
      [0xa4, 0, 0, 0, 0, 0, 0, 2] + Put16(len) + [agid * 64 + format] + Zeros(5)
    case SendKey(agid, format, data) =>
      [0xa3, 0, 0, 0, 0, 0, 0, 2] + Put16(|data|) + [agid * 64 + format] + Zeros(5)
    case ReadStructure(agid, format, len) =>
      [0xad, 1, 0, 0, 0, 0, 0, format] + Put16(len) + [agid * 64] + Zeros(5)
  }

  /** What the drive reads in a command: the operation, the key class 2 or the
      medium 1, the length of the data, and where AGID and format are. */
  lemma CdbFields(cmd: Command)
    requires cmd.agid < 4 && cmd.format < (if cmd.ReadStructure? then 256 else 64)
    requires if cmd.SendKey? then |cmd.data| < 0x1_0000 else cmd.len < 0x1_0000
    ensures var s := Cdb(cmd);
      && |s| == 16 && s[10] / 64 == cmd.agid && BE16(s, 8) == (if cmd.SendKey? then |cmd.data| else cmd.len)
      && s[0] == (match cmd case ReportKey(_, _, _) => 164 case SendKey(_, _, _) => 163 case ReadStructure(_, _, _) => 173)
      && (if cmd.ReadStructure? then s[1] == 1 && s[7] == cmd.format && s[10] % 64 == 0
          else s[1] == 0 && s[7] == 2 && s[10] % 64 == cmd.format)
      && (forall i :: 2 <= i < 7 || 11 <= i < 16 ==> s[i] == 0)
  {
    var n := if cmd.SendKey? then |cmd.data| else cmd.len;
    var s := Cdb(cmd);
    assert s[8] == Put16(n)[0] && s[9] == Put16(n)[1] && BE16(Put16(n), 0) == n;
  }

  /** Different commands look different to the drive. */
  lemma CdbInjective(a: Command, b: Command)
    requires a.agid < 4 && a.format < (if a.ReadStructure? then 256 else 64)
    requires if a.SendKey? then |a.data| < 0x1_0000 else a.len < 0x1_0000
    requires b.agid < 4 && b.format < (if b.ReadStructure? then 256 else 64)
    requires if b.SendKey? then |b.data| < 0x1_0000 else b.len < 0x1_0000
    requires Cdb(a) == Cdb(b) && (a.SendKey? && b.SendKey? ==> a.data == b.data)
    ensures a == b
  {
    var s, t := Cdb(a), Cdb(b);
    assert s[0] == t[0] && s[7] == t[7] && s[8] == t[8] && s[9] == t[9] && s[10] == t[10];
    var m, n := if a.SendKey? then |a.data| else a.len, if b.SendKey? then |b.data| else b.len;
    assert s[8] == Put16(m)[0] && s[9] == Put16(m)[1] && t[8] == Put16(n)[0] && t[9] == Put16(n)[1];
    assert m == BE16(Put16(m), 0) == BE16(Put16(n), 0) == n;
  }

  // A reply to the commands so far, the last of which it answers.
  type Drive = seq<Command> -> Option<seq<Byte>>

  // What a reply leaves in a buffer of n zero bytes.
  function Fit(reply: seq<Byte>, n: nat): (s: seq<Byte>)
    ensures |s| == n
  {
    if |reply| >= n then reply[..n] else reply + Zeros(n - |reply|)
  }

  function Invalidate(agid: nat): Command {
    ReportKey(agid, 0x3f, 2)
  }

  function Prologue(): seq<Command> {
    [Invalidate(0), Invalidate(1), Invalidate(2), Invalidate(3), ReportKey(0, 0, 8)]
  }

  function CertMessage(nonce: Nonce, cert: Cert): seq<Byte> {
    [0, 0x72, 0, 0] + nonce + cert
  }

  function KeyMessage(point: Bytes40, signature: Bytes40): seq<Byte> {
    [0, 0x52, 0, 0] + point + signature
  }

  // ------------------------------------------------------------------
  // A run, told from the replies of the drive

  // The host's side: what it was opened with, and the certificate in use.
  datatype Host = Host(nonce: Nonce, key: seq<Byte>, point: Bytes40, cert: Cert, priv: seq<Byte>)

  // The commands up to each step; t is what was sent before.
  function T1(h: Host, t: seq<Command>, agid: nat): seq<Command> {
    t + [SendKey(agid, 1, CertMessage(h.nonce, h.cert))]
  }

  function T2(h: Host, t: seq<Command>, agid: nat): seq<Command> {
    T1(h, t, agid) + [ReportKey(agid, 1, 116)]
  }

  function T3(h: Host, t: seq<Command>, agid: nat): seq<Command> {
    T2(h, t, agid) + [ReportKey(agid, 2, 84)]
  }

  function T4(h: Host, t: seq<Command>, agid: nat, signature: Bytes40): seq<Command> {
    T3(h, t, agid) + [SendKey(agid, 2, KeyMessage(h.point, signature))]
  }

  // The drive's nonce and certificate, its key point and signature.
  function DriveNonce(challenge: seq<Byte>): Nonce {
    Fit(challenge, 116)[4..24]
  }

  function DriveCert(challenge: seq<Byte>): Cert {
    Fit(challenge, 116)[24..116]
  }

  function DrivePoint(key: seq<Byte>): Bytes40 {
    Fit(key, 84)[4..44]
  }

  function DriveSignature(key: seq<Byte>): Bytes40 {
    Fit(key, 84)[44..84]
  }

  // The drive gave a verified certificate.
  predicate CertifiedDrive(c: Crypto, drive: Drive, h: Host, t: seq<Command>, agid: nat) {
    var r := drive(T2(h, t, agid));
    drive(T1(h, t, agid)).Some? && r.Some? && CertOk(c, DriveCert(r.value), DRIVE_CERT)
  }

  // With that certificate's key it signed the host's nonce and its own point.
  predicate SignedByDrive(c: Crypto, drive: Drive, h: Host, t: seq<Command>, agid: nat) {
    CertifiedDrive(c, drive, h, t, agid) &&
    var r, s := drive(T2(h, t, agid)), drive(T3(h, t, agid));
    s.Some? && SignatureOk(c, PublicKey(DriveCert(r.value)), DriveSignature(s.value), h.nonce + DrivePoint(s.value))
  }

  // The host's signature over the drive's nonce and the host's point.
  function HostSignature(c: Crypto, drive: Drive, h: Host, t: seq<Command>, agid: nat): Option<Bytes40>
    requires CertifiedDrive(c, drive, h, t, agid)
  {
    Signature(c, h.cert, h.priv, DriveNonce(drive(T2(h, t, agid)).value) + h.point)
  }

  // It verifies under the host's own certificate and the drive takes it.
  predicate SignedByHost(c: Crypto, drive: Drive, h: Host, t: seq<Command>, agid: nat) {
    SignedByDrive(c, drive, h, t, agid) &&
    var sig := HostSignature(c, drive, h, t, agid);
    && sig.Some?
    && SignatureOk(c, PublicKey(h.cert), sig.value, DriveNonce(drive(T2(h, t, agid)).value) + h.point)
    && drive(T4(h, t, agid, sig.value)).Some?
  }

  function Sent(c: Crypto, drive: Drive, h: Host, t: seq<Command>, agid: nat): seq<Command>
    requires SignedByHost(c, drive, h, t, agid)
  {
    T4(h, t, agid, HostSignature(c, drive, h, t, agid).value)
  }

  function SharedKey(c: Crypto, drive: Drive, h: Host, t: seq<Command>, agid: nat, stray: seq<Byte> -> Block): Block
    requires SignedByHost(c, drive, h, t, agid)
  {
    BusKey(c, h.key, DrivePoint(drive(T3(h, t, agid)).value), stray)
  }

  // The commands sent in the handshake, as far as it goes.
  function CertTrace(drive: Drive, h: Host, t: seq<Command>, agid: nat): seq<Command> {
    if drive(T1(h, t, agid)).None? then T1(h, t, agid) else T2(h, t, agid)
  }

  function KeyTrace(c: Crypto, drive: Drive, h: Host, t: seq<Command>, agid: nat): seq<Command>
    requires CertifiedDrive(c, drive, h, t, agid)
  {
    var sig := HostSignature(c, drive, h, t, agid);
    if sig.Some? && SignatureOk(c, PublicKey(h.cert), sig.value, DriveNonce(drive(T2(h, t, agid)).value) + h.point)
    then T4(h, t, agid, sig.value)
    else T3(h, t, agid)
  }

  function AuthTrace(c: Crypto, drive: Drive, h: Host, t: seq<Command>, agid: nat): seq<Command> {
    if !CertifiedDrive(c, drive, h, t, agid) then CertTrace(drive, h, t, agid)
    else if !SignedByDrive(c, drive, h, t, agid) then T3(h, t, agid)
    else KeyTrace(c, drive, h, t, agid)
  }

  const SUCCESS := 0
  const ERROR := -1
  const CERT_REVOKED := -2

  // The handshake's result code.
  function AuthCode(c: Crypto, drive: Drive, h: Host, t: seq<Command>, agid: nat): int {
    if SignedByHost(c, drive, h, t, agid) then SUCCESS
    else if drive(T1(h, t, agid)).None? then CERT_REVOKED
    else ERROR
  }

  // ------------------------------------------------------------------
  // The host

  datatype Request = VolumeId | SerialNumber | DataKeys | Unknown

  class Mmc {
    const c: Crypto
    const drive: Drive
    const stray: seq<Byte> -> Block
    const hostNonce: Nonce
    const hostKey: seq<Byte>
    const hostKeyPoint: Bytes40
    var driveCert: Cert
    var trace: seq<Command>

    // mmc_open, from the random nonce and key drawn
    constructor (c: Crypto, drive: Drive, stray: seq<Byte> -> Block, nonce: Nonce, key: seq<Byte>, sent: seq<Command>)
      requires c.Fitting()
      ensures this.c == c && this.drive == drive && this.stray == stray && hostNonce == nonce && hostKey == key
      ensures hostKeyPoint == Encode(c.mul(Value(key), c.generator)) && trace == sent
    {
      this.c, this.drive, this.stray, hostNonce, hostKey := c, drive, stray, nonce, key;
      var point := CreateHostKeyPair(c, key);
      hostKeyPoint := point;
      driveCert, trace := Zeros(92), sent;
    }

    function AsHost(priv: seq<Byte>, cert: Cert): Host {
      Host(hostNonce, hostKey, hostKeyPoint, cert, priv)
    }

    // device_send_cmd
    method Send(cmd: Command) returns (reply: Option<seq<Byte>>)
      modifies this`trace
      ensures trace == old(trace) + [cmd] && reply == drive(trace)
    {
      trace := trace + [cmd];
      reply := drive(trace);
    }

    // _mmc_invalidate_agids
    method InvalidateAgids()
      modifies this`trace
      ensures trace == old(trace) + [Invalidate(0), Invalidate(1), Invalidate(2), Invalidate(3)]
    {
      var agid := 0;
      while agid < 4
        invariant 0 <= agid <= 4
        invariant trace == old(trace) + [Invalidate(0), Invalidate(1), Invalidate(2), Invalidate(3)][..agid]
      {
        var _ := Send(Invalidate(agid));
        agid := agid + 1;
      }
    }

    // The first half of the handshake: the certificates.
    method Certify(agid: nat, priv: seq<Byte>, cert: Cert) returns (code: int, dn: Nonce)
      modifies this`trace, this`driveCert
      ensures var h, t := AsHost(priv, cert), old(trace);
              if CertifiedDrive(c, drive, h, t, agid) then
                && code == SUCCESS && trace == T2(h, t, agid)
                && dn == DriveNonce(drive(trace).value) && driveCert == DriveCert(drive(trace).value)
              else code == if drive(T1(h, t, agid)).None? then CERT_REVOKED else ERROR
      ensures trace == CertTrace(drive, AsHost(priv, cert), old(trace), agid)
    {
      dn := Zeros(20);
      var sent := Send(SendKey(agid, 1, CertMessage(hostNonce, cert)));
      if sent.None? {
        return CERT_REVOKED, dn;
      }
      var challenge := Send(ReportKey(agid, 1, 116));
      if challenge.None? {
        return ERROR, dn;
      }
      dn := DriveNonce(challenge.value);
      driveCert := DriveCert(challenge.value);
      if driveCert[0] == DRIVE_CERT_AACS2 {
        return ERROR, dn;
      }
      return if CertOk(c, driveCert, DRIVE_CERT) then SUCCESS else ERROR, dn;
    }

    // The drive's key point, signed together with the host's nonce.
    method GetDriveKey(agid: nat, ghost h: Host, ghost t: seq<Command>) returns (code: int, dkp: Bytes40)
      requires CertifiedDrive(c, drive, h, t, agid) && trace == T2(h, t, agid) && h.nonce == hostNonce
      requires driveCert == DriveCert(drive(trace).value)
      modifies this`trace
      ensures code == if SignedByDrive(c, drive, h, t, agid) then SUCCESS else ERROR
      ensures trace == T3(h, t, agid) && (code == SUCCESS ==> dkp == DrivePoint(drive(trace).value))
    {
      var key := Send(ReportKey(agid, 2, 84));
      if key.None? {
        return ERROR, Zeros(40);
      }
      dkp := DrivePoint(key.value);
      code := if SignatureOk(c, PublicKey(driveCert), DriveSignature(key.value), hostNonce + dkp) then SUCCESS else ERROR;
    }

    // The host's key point, signed together with the drive's nonce.
    method SendHostKey(agid: nat, priv: seq<Byte>, cert: Cert, dn: Nonce, ghost h: Host, ghost t: seq<Command>) returns (code: int)
      requires c.Fitting() && h == AsHost(priv, cert) && SignedByDrive(c, drive, h, t, agid)
      requires trace == T3(h, t, agid) && dn == DriveNonce(drive(T2(h, t, agid)).value)
      modifies this`trace
      ensures code == if SignedByHost(c, drive, h, t, agid) then SUCCESS else ERROR
      ensures trace == KeyTrace(c, drive, h, t, agid)
    {
      var hks := Sign(c, cert, priv, dn, hostKeyPoint);
      if hks.None? || !SignatureOk(c, PublicKey(cert), hks.value, dn + hostKeyPoint) {
        return ERROR;
      }
      var taken := Send(SendKey(agid, 2, KeyMessage(hostKeyPoint, hks.value)));
      code := if taken.Some? then SUCCESS else ERROR;
    }

    /** _mmc_aacs_auth */
    method AacsAuth(agid: nat, priv: seq<Byte>, cert: Cert) returns (code: int, busKey: Block)
      requires c.Fitting()
      modifies this`trace, this`driveCert
      ensures code == AuthCode(c, drive, AsHost(priv, cert), old(trace), agid)
      ensures code == SUCCESS ==>
                var h, t := AsHost(priv, cert), old(trace);
                trace == Sent(c, drive, h, t, agid) && busKey == SharedKey(c, drive, h, t, agid, stray)
      ensures trace == AuthTrace(c, drive, AsHost(priv, cert), old(trace), agid)
    {
      ghost var h, t := AsHost(priv, cert), trace;
      var dn;
      busKey := ZeroBlock();
      code, dn := Certify(agid, priv, cert);
      if code != SUCCESS {
        return;
      }
      var dkp;
      code, dkp := GetDriveKey(agid, h, t);
      if code != SUCCESS {
        return;
      }
      code := SendHostKey(agid, priv, cert, dn, h, t);
      if code == SUCCESS {
        busKey := BusKey(c, hostKey, dkp, stray);
      }
    }

    /** _read_vid and _read_pmsn: what was read is in the caller's buffer even if
        its code does not match. */
    method ReadCoded(agid: nat, format: nat, busKey: Block, p: array<Byte>) returns (code: int)
      requires p.Length == 16
      modifies this`trace, p
      ensures trace == old(trace) + [ReadStructure(agid, format, 36)]
      ensures code == SUCCESS || code == ERROR
      ensures code == SUCCESS <==> drive(trace).Some? && CodeMatches(c, busKey, drive(trace).value)
      ensures p[..] == if drive(trace).Some? then Payload(drive(trace).value) else old(p[..])
    {
      var reply := Send(ReadStructure(agid, format, 36));
      if reply.None? {
        return ERROR;
      }
      var buf := Fit(reply.value, 36);
      forall i | 0 <= i < 16 {
        p[i] := buf[4 + i];
      }
      assert p[..] == buf[4..20];
      var mac := Cmac.AesCmac16(c.cipher, p[..], busKey);
      return if mac == buf[20..36] then SUCCESS else ERROR;
    }

    /** _read_data_keys, the read data key */
    method ReadDataKeys(agid: nat, busKey: Block, p: array<Byte>) returns (code: int)
      requires p.Length == 16
      modifies this`trace, p
      ensures trace == old(trace) + [ReadStructure(agid, 0x84, 36)]
      ensures code == SUCCESS || code == ERROR
      ensures code == SUCCESS <==> drive(trace).Some?
      ensures p[..] == if drive(trace).Some? then c.cipher.dec(busKey, Payload(drive(trace).value)) else old(p[..])
    {
      var reply := Send(ReadStructure(agid, 0x84, 36));
      if reply.None? {
        return ERROR;
      }
      var key := c.cipher.dec(busKey, Payload(reply.value));
      forall i | 0 <= i < 16 {
        p[i] := key[i];
      }
      assert p[..] == key;
      return SUCCESS;
    }

    // The request itself.
    method ReadRequested(agid: nat, busKey: Block, request: Request, p: array<Byte>) returns (code: int)
      requires p.Length == 16
      modifies this`trace, p
      ensures code == SUCCESS || code == ERROR
      ensures code == SUCCESS <==>
                request != Unknown && Answers(c, busKey, drive(old(trace) + [ReadStructure(agid, Format(request), 36)]), request)
      ensures p[..] == Left(c, busKey, drive(old(trace) + [ReadStructure(agid, Format(request), 36)]), request, old(p[..]))
      ensures trace == if request == Unknown then old(trace) else old(trace) + [ReadStructure(agid, Format(request), 36)]
    {
      match request {
        case VolumeId => code := ReadCoded(agid, 0x80, busKey, p);
        case SerialNumber => code := ReadCoded(agid, 0x81, busKey, p);
        case DataKeys => code := ReadDataKeys(agid, busKey, p);
        case Unknown => code := ERROR;
      }
    }

    // Between the grant of an AGID and its invalidation.
    method Converse(agid: nat, priv: seq<Byte>, cert: Cert, request: Request, p: array<Byte>) returns (code: int)
      requires c.Fitting() && p.Length == 16
      modifies this`trace, this`driveCert, p
      ensures var h, t := AsHost(priv, cert), old(trace);
              && (code == SUCCESS <==> Serves(c, drive, h, stray, t, agid, request))
              && p[..] == Buffer(c, drive, h, stray, t, agid, request, old(p[..]))
              && (code == CERT_REVOKED <==> drive(T1(h, t, agid)).None?)
      ensures code == SUCCESS || code == CERT_REVOKED || code == ERROR
      ensures trace == TalkTrace(c, drive, AsHost(priv, cert), old(trace), agid, request)
    {
      var busKey;
      code, busKey := AacsAuth(agid, priv, cert);
      if code == SUCCESS {
        code := ReadRequested(agid, busKey, request, p);
      }
    }

    /** mmc_read_auth: exactly when it succeeds or reports a revoked certificate,
        the caller's buffer, and every command sent. */
    method ReadAuth(priv: seq<Byte>, cert: Cert, request: Request, p: array<Byte>) returns (code: int)
      requires c.Fitting() && p.Length == 16
      modifies this`trace, this`driveCert, p
      ensures code == RunCode(c, drive, AsHost(priv, cert), stray, old(trace), request)
      ensures p[..] == RunBuffer(c, drive, AsHost(priv, cert), stray, old(trace), request, old(p[..]))
      ensures trace == RunTrace(c, drive, AsHost(priv, cert), old(trace), request)
      ensures code == 0 <==>
              exists e :: && Authentic(c, drive, AsHost(priv, cert), stray, old(trace), request, e) && p[..] == e.gets
                          && trace == e.SendsAll(old(trace), request)
      ensures code != 0 ==> code == if Refused(drive, AsHost(priv, cert), old(trace)) then -2 else -1
    {
      hide Authentic, Refused;
      SuccessWasAuthenticated(c, drive, AsHost(priv, cert), stray, trace, request, p[..]);
      ghost var t0 := trace;
      InvalidateAgids();
      var grant := Send(ReportKey(0, 0, 8));
      assert trace == t0 + Prologue();
      if grant.None? {
        return ERROR;
      }
      var agid := Fit(grant.value, 8)[7] / 64;
      code := Converse(agid, priv, cert, request, p);
      var _ := Send(Invalidate(agid));
    }
  }

  function Payload(reply: seq<Byte>): Block {
    Fit(reply, 36)[4..20]
  }

  predicate CodeMatches(c: Crypto, busKey: Block, reply: seq<Byte>) {
    Cmac.AesCmac(c.cipher, busKey, Payload(reply)) == Fit(reply, 36)[20..36]
  }

  // The drive grants an AGID.
  predicate Granted(drive: Drive, t0: seq<Command>) {
    drive(t0 + Prologue()).Some?
  }

  function Agid(drive: Drive, t0: seq<Command>): (a: nat)
    requires Granted(drive, t0)
    ensures a < 4
  {
    Fit(drive(t0 + Prologue()).value, 8)[7] / 64
  }

  function Format(request: Request): nat {
    match request
    case VolumeId => 0x80
    case SerialNumber => 0x81
    case DataKeys => 0x84
    case Unknown => 0
  }

  // A reply to the request that will do: an identifier comes with its code.
  predicate Answers(c: Crypto, busKey: Block, reply: Option<seq<Byte>>, request: Request) {
    reply.Some? && (request != DataKeys ==> CodeMatches(c, busKey, reply.value))
  }

  function AnswerIn(c: Crypto, busKey: Block, reply: seq<Byte>, request: Request): Block {
    if request == DataKeys then c.cipher.dec(busKey, Payload(reply)) else Payload(reply)
  }

  // The caller's buffer after the request: what the drive replied is there even
  // if its code does not match.
  function Left(c: Crypto, busKey: Block, reply: Option<seq<Byte>>, request: Request, before: Block): Block {
    if request == Unknown || reply.None? then before else AnswerIn(c, busKey, reply.value, request)
  }

  // The reply to the request, after the handshake.
  function LastReply(c: Crypto, drive: Drive, h: Host, t: seq<Command>, agid: nat, request: Request): Option<seq<Byte>>
    requires SignedByHost(c, drive, h, t, agid)
  {
    drive(Sent(c, drive, h, t, agid) + [ReadStructure(agid, Format(request), 36)])
  }

  /** The drive serves a request: a certified drive, its signature and the host's
      own over each other's nonces, and for an identifier a matching code under
      the key both derive. */
  predicate Serves(c: Crypto, drive: Drive, h: Host, stray: seq<Byte> -> Block, t: seq<Command>, agid: nat, request: Request) {
    && SignedByHost(c, drive, h, t, agid)
    && request != Unknown
    && Answers(c, SharedKey(c, drive, h, t, agid, stray), LastReply(c, drive, h, t, agid, request), request)
  }

  function Buffer(c: Crypto, drive: Drive, h: Host, stray: seq<Byte> -> Block, t: seq<Command>, agid: nat,
                  request: Request, before: Block): Block
  {
    if SignedByHost(c, drive, h, t, agid) then
      Left(c, SharedKey(c, drive, h, t, agid, stray), LastReply(c, drive, h, t, agid, request), request, before)
    else before
  }

  /** Success: an AGID, and under it the request is served. */
  predicate Succeeds(c: Crypto, drive: Drive, h: Host, stray: seq<Byte> -> Block, t0: seq<Command>, request: Request) {
    Granted(drive, t0) && Serves(c, drive, h, stray, t0 + Prologue(), Agid(drive, t0), request)
  }

  function TalkTrace(c: Crypto, drive: Drive, h: Host, t: seq<Command>, agid: nat, request: Request): seq<Command> {
    if SignedByHost(c, drive, h, t, agid) && request != Unknown
    then AuthTrace(c, drive, h, t, agid) + [ReadStructure(agid, Format(request), 36)]
    else AuthTrace(c, drive, h, t, agid)
  }

  // The whole run: its result, the caller's buffer, and the commands.
  function RunCode(c: Crypto, drive: Drive, h: Host, stray: seq<Byte> -> Block, t0: seq<Command>, request: Request): int {
    if Succeeds(c, drive, h, stray, t0, request) then SUCCESS
    else if Granted(drive, t0) && drive(T1(h, t0 + Prologue(), Agid(drive, t0))).None? then CERT_REVOKED
    else ERROR
  }

  function RunBuffer(c: Crypto, drive: Drive, h: Host, stray: seq<Byte> -> Block, t0: seq<Command>, request: Request, before: Block): Block {
    if Granted(drive, t0) then Buffer(c, drive, h, stray, t0 + Prologue(), Agid(drive, t0), request, before) else before
  }

  function RunTrace(c: Crypto, drive: Drive, h: Host, t0: seq<Command>, request: Request): seq<Command> {
    if Granted(drive, t0)
    then TalkTrace(c, drive, h, t0 + Prologue(), Agid(drive, t0), request) + [Invalidate(Agid(drive, t0))]
    else t0 + Prologue()
  }

  // A command that is not an invalidation, under one AGID.
  predicate Ordinary(cmd: Command, agid: nat) {
    cmd.agid == agid && cmd != Invalidate(agid)
  }

  // What was sent since a point is ordinary.
  predicate Extends(trace: seq<Command>, t: seq<Command>, agid: nat) {
    t <= trace && forall i :: |t| <= i < |trace| ==> Ordinary(trace[i], agid)
  }

  lemma OneMore(trace: seq<Command>, t: seq<Command>, agid: nat, cmd: Command)
    requires Extends(trace, t, agid) && Ordinary(cmd, agid)
    ensures Extends(trace + [cmd], t, agid)
  {
  }

  lemma AuthIsOrdinary(c: Crypto, drive: Drive, h: Host, t: seq<Command>, agid: nat)
    ensures Extends(AuthTrace(c, drive, h, t, agid), t, agid)
  {
    OneMore(t, t, agid, SendKey(agid, 1, CertMessage(h.nonce, h.cert)));
    OneMore(T1(h, t, agid), t, agid, ReportKey(agid, 1, 116));
    OneMore(T2(h, t, agid), t, agid, ReportKey(agid, 2, 84));
    if CertifiedDrive(c, drive, h, t, agid) && HostSignature(c, drive, h, t, agid).Some? {
      OneMore(T3(h, t, agid), t, agid, SendKey(agid, 2, KeyMessage(h.point, HostSignature(c, drive, h, t, agid).value)));
    }
  }

  /** Against every drive, on every path: the run starts by invalidating all AGIDs
      and asking for one; all that follows is under the one granted, which the last
      command invalidates and no earlier one does. */
  lemma RunIsClosed(c: Crypto, drive: Drive, h: Host, t0: seq<Command>, request: Request)
    ensures var trace, t := RunTrace(c, drive, h, t0, request), t0 + Prologue();
      if Granted(drive, t0) then
        && |trace| > |t| && trace[|trace| - 1] == Invalidate(Agid(drive, t0))
        && Extends(trace[..|trace| - 1], t, Agid(drive, t0))
      else trace == t
  {
    if Granted(drive, t0) {
      var t, agid := t0 + Prologue(), Agid(drive, t0);
      AuthIsOrdinary(c, drive, h, t, agid);
      OneMore(AuthTrace(c, drive, h, t, agid), t, agid, ReadStructure(agid, Format(request), 36));
      var talk := TalkTrace(c, drive, h, t, agid, request);
      assert (talk + [Invalidate(agid)])[..|talk|] == talk;
    }
  }

  // ------------------------------------------------------------------
  // What a success means, in the bytes that are exchanged

  // A reply in a buffer of n bytes that were zero.
  ghost predicate Received(reply: Option<seq<Byte>>, n: nat, buf: seq<Byte>) {
    && reply.Some? && |buf| == n
    && forall i :: 0 <= i < n ==> buf[i] == if i < |reply.value| then reply.value[i] else 0
  }

  /** A certificate of the licensing administrator: its kind, its length, and that
      key's signature over its first 52 bytes. */
  ghost predicate Certified(c: Crypto, cert: seq<Byte>, kind: Byte) {
    && |cert| == 92 && cert[0] == kind && BE16(cert, 2) == 92
    && c.verify(Fixed(0x63C21DFFB2B2798A13B58D61166C4E4AAC8A0772, 20) + Fixed(0x137EC638818FD98FA4C30B996728BF4B917F6A27, 20),
                Value(cert[52..72]), Value(cert[72..92]), cert[..52])
  }

  // The holder of the certificate signed the data.
  ghost predicate SignedWith(c: Crypto, cert: seq<Byte>, signature: seq<Byte>, data: seq<Byte>)
    requires |cert| == 92 && |signature| == 40
  {
    c.verify(cert[12..52], Value(signature[..20]), Value(signature[20..40]), data)
  }

  // A message of n bytes: the number of bytes behind the length field, and the parts.
  ghost predicate MessageOf(m: seq<Byte>, n: nat, parts: seq<Byte>) {
    |m| == n && n >= 4 && BE16(m, 0) == n - 2 && BE16(m, 2) == 0 && m[4..] == parts
  }

  /** What passes between a host and a drive: the messages, and what the host gets. */
  datatype Exchange = Exchange(grant: seq<Byte>, certMessage: seq<Byte>, challenge: seq<Byte>, key: seq<Byte>, signature: seq<Byte>,
                               keyMessage: seq<Byte>, answer: seq<Byte>, busKey: Block, gets: Block)
  {
    function Agid(): nat
      requires |grant| == 8
    {
      grant[7] / 64
    }

    // All that is sent up to the request.
    function Sends(t0: seq<Command>): seq<Command>
      requires |grant| == 8
    {
      t0 + [ReportKey(0, 0x3f, 2), ReportKey(1, 0x3f, 2), ReportKey(2, 0x3f, 2), ReportKey(3, 0x3f, 2), ReportKey(0, 0, 8),
            SendKey(Agid(), 1, certMessage), ReportKey(Agid(), 1, 116), ReportKey(Agid(), 2, 84), SendKey(Agid(), 2, keyMessage)]
    }

    // ... and all with it.
    function SendsAll(t0: seq<Command>, request: Request): seq<Command>
      requires |grant| == 8
    {
      var format := match request case VolumeId => 0x80 case SerialNumber => 0x81 case DataKeys => 0x84 case Unknown => 0;
      Sends(t0) + [ReadStructure(Agid(), format, 36), ReportKey(Agid(), 0x3f, 2)]
    }
  }

  // The messages of the handshake.
  ghost predicate Shakes(drive: Drive, h: Host, t0: seq<Command>, e: Exchange) {
    && |e.grant| == 8
    && MessageOf(e.certMessage, 116, h.nonce + h.cert) && MessageOf(e.keyMessage, 84, h.point + e.signature)
    && var all := e.Sends(t0);
    && var n := |t0|;
    && Received(drive(all[..n + 5]), 8, e.grant) && drive(all[..n + 6]).Some?
    && Received(drive(all[..n + 7]), 116, e.challenge) && Received(drive(all[..n + 8]), 84, e.key) && drive(all).Some?
  }

  // Its signatures: the drive's certificate; the drive's over the host's nonce and
  // its own point; the host's over the drive's nonce and its own point.
  ghost predicate Signs(c: Crypto, h: Host, e: Exchange) {
    && |e.challenge| == 116 && |e.key| == 84 && |e.signature| == 40
    && Certified(c, e.challenge[24..116], 0x01)
    && SignedWith(c, e.challenge[24..116], e.key[44..84], h.nonce + e.key[4..44])
    && SignedWith(c, h.cert, e.signature, e.challenge[4..24] + h.point)
    && var rs := c.sign(h.cert[12..52], h.priv, e.challenge[4..24] + h.point);
       rs.Some? && e.signature == Fixed(rs.value.0, 20) + Fixed(rs.value.1, 20)
  }

  // The bus key: the lowest 128 bits of the shared abscissa, when it is long enough.
  ghost predicate Shares(c: Crypto, h: Host, stray: seq<Byte> -> Block, e: Exchange) {
    |e.key| == 84 &&
    var x := c.mul(Value(h.key), Point(Value(e.key[4..24]), Value(e.key[24..44]))).x;
    if x >= Pow2(120) then Value(e.busKey) == x % Pow2(128) else e.busKey == stray(Minimal(x))
  }

  // The answer: an identifier with its code, or encrypted data keys.
  ghost predicate Tells(c: Crypto, drive: Drive, t0: seq<Command>, request: Request, e: Exchange) {
    && |e.grant| == 8 && |e.answer| == 36
    && var all := e.Sends(t0);
    match request
    case VolumeId =>
      && Received(drive(all + [ReadStructure(e.Agid(), 0x80, 36)]), 36, e.answer)
      && e.gets == e.answer[4..20] && Cmac.IsCode(c.cipher, e.busKey, e.gets, e.answer[20..36])
    case SerialNumber =>
      && Received(drive(all + [ReadStructure(e.Agid(), 0x81, 36)]), 36, e.answer)
      && e.gets == e.answer[4..20] && Cmac.IsCode(c.cipher, e.busKey, e.gets, e.answer[20..36])
    case DataKeys =>
      && Received(drive(all + [ReadStructure(e.Agid(), 0x84, 36)]), 36, e.answer)
      && e.gets == c.cipher.dec(e.busKey, e.answer[4..20])
    case Unknown => false
  }

  ghost predicate Authentic(c: Crypto, drive: Drive, h: Host, stray: seq<Byte> -> Block, t0: seq<Command>, request: Request, e: Exchange) {
    Shakes(drive, h, t0, e) && Signs(c, h, e) && Shares(c, h, stray, e) && Tells(c, drive, t0, request, e)
  }

  lemma ReceivedIff(reply: Option<seq<Byte>>, n: nat, buf: seq<Byte>)
    ensures Received(reply, n, buf) <==> reply.Some? && buf == Fit(reply.value, n)
  {
  }

  lemma CertifiedIff(c: Crypto, cert: Cert, kind: Byte)
    ensures Certified(c, cert, kind) <==> CertOk(c, cert, kind)
  {
    hide Value, Fixed;
    var s := cert[52..92];
    assert s[..20] == cert[52..72] && s[20..] == cert[72..92];
  }

  lemma SignedWithIff(c: Crypto, cert: Cert, signature: Bytes40, data: seq<Byte>)
    ensures SignedWith(c, cert, signature, data) <==> SignatureOk(c, PublicKey(cert), signature, data)
  {
    assert signature[20..40] == signature[20..];
  }

  lemma CertMessageIff(m: seq<Byte>, nonce: Nonce, cert: Cert)
    ensures MessageOf(m, 116, nonce + cert) <==> m == CertMessage(nonce, cert)
  {
    if MessageOf(m, 116, nonce + cert) {
      assert m == m[..4] + m[4..];
    }
    assert CertMessage(nonce, cert)[4..] == nonce + cert;
  }

  lemma KeyMessageIff(m: seq<Byte>, point: Bytes40, signature: Bytes40)
    ensures MessageOf(m, 84, point + signature) <==> m == KeyMessage(point, signature)
  {
    if MessageOf(m, 84, point + signature) {
      assert m == m[..4] + m[4..];
    }
    assert KeyMessage(point, signature)[4..] == point + signature;
  }

  lemma {:induction false} MinimalLonger(v: nat, n: nat)
    ensures |Minimal(v)| > n <==> v >= Pow2(8 * n)
    decreases n
  {
    if n > 0 {
      MinimalLonger(v / 256, n - 1);
      BytePower(8 * (n - 1));
    }
  }

  lemma {:induction false} ValueTail(s: seq<Byte>, n: nat)
    requires n <= |s|
    ensures Value(s[|s| - n..]) == Value(s) % Pow2(8 * n)
    decreases n
  {
    if n > 0 {
      var h, b := s[..|s| - 1], s[|s| - 1];
      ValueTail(h, n - 1);
      BytePower(8 * (n - 1));
      var tail := s[|s| - n..];
      assert tail[..n - 1] == h[|h| - (n - 1)..] && tail[n - 1] == b;
      TailDigit(Value(h), b, Pow2(8 * (n - 1)));
    }
  }

  lemma TailDigit(v: nat, b: Byte, p: nat)
    requires p > 0
    ensures (256 * v + b) % (256 * p) == 256 * (v % p) + b
  {
    var q, r := v / p, v % p;
    QuotientAndRest(v, p, q, r);
    assert 256 * v + b == (256 * p) * q + (256 * r + b);
    DivideExactly(256 * p, q, 256 * r + b, 256 * v + b);
  }

  lemma LowestBytes(x: nat, s: seq<Byte>, n: nat)
    requires |s| == n <= |Minimal(x)|
    ensures Value(s) == x % Pow2(8 * n) <==> s == Minimal(x)[|Minimal(x)| - n..]
  {
    hide Minimal, Value, Fixed, Pow2;
    var bin := Minimal(x);
    PaddedMinimal(x, |bin|);
    assert Zeros(0) + bin == bin;
    ValueTail(bin, n);
    SameValue(bin[|bin| - n..], s);
  }

  lemma SameValue(a: seq<Byte>, b: seq<Byte>)
    requires |a| == |b|
    ensures Value(a) == Value(b) <==> a == b
  {
    FixedOfValue(a);
    FixedOfValue(b);
  }

  lemma SharesIff(c: Crypto, h: Host, stray: seq<Byte> -> Block, e: Exchange)
    requires |e.key| == 84
    ensures Shares(c, h, stray, e) <==> e.busKey == BusKey(c, h.key, e.key[4..44], stray)
  {
    hide Minimal, Value, Pow2;
    var p := e.key[4..44];
    assert p[..20] == e.key[4..24] && p[20..] == e.key[24..44];
    var x := c.mul(Value(h.key), Decode(p)).x;
    MinimalLonger(x, 15);
    if |Minimal(x)| >= 16 {
      LowestBytes(x, e.busKey, 16);
    }
  }

  // The sequence of commands, step by step.
  lemma SendsAre(h: Host, t0: seq<Command>, e: Exchange)
    requires |e.grant| == 8 && |e.signature| == 40
    requires e.certMessage == CertMessage(h.nonce, h.cert) && e.keyMessage == KeyMessage(h.point, e.signature)
    ensures var all, n, t := e.Sends(t0), |t0|, t0 + Prologue();
      && |all| == n + 9 && all[..n + 5] == t && all[..n + 6] == T1(h, t, e.Agid()) && all[..n + 7] == T2(h, t, e.Agid())
      && all[..n + 8] == T3(h, t, e.Agid()) && all == T4(h, t, e.Agid(), e.signature)
  {
  }

  /** The messages and the signatures of a handshake are those of the run. */
  lemma HandshakeIff(c: Crypto, drive: Drive, h: Host, t0: seq<Command>, e: Exchange)
    requires c.Fitting() && Shakes(drive, h, t0, e) && Signs(c, h, e)
    ensures |e.grant| == 8 && |e.key| == 84
    ensures var t := t0 + Prologue();
      && Granted(drive, t0) && e.Agid() == Agid(drive, t0) && SignedByHost(c, drive, h, t, e.Agid())
      && HostSignature(c, drive, h, t, e.Agid()) == Some(e.signature)
      && e.Sends(t0) == Sent(c, drive, h, t, e.Agid())
      && e.key[4..44] == DrivePoint(drive(T3(h, t, e.Agid())).value)
  {
    hide Certified, SignedWith, CertOk, SignatureOk, MessageOf, Fit, CertMessage, KeyMessage, Received, Signature;
    var t, agid, all, n := t0 + Prologue(), e.Agid(), e.Sends(t0), |t0|;
    CertMessageIff(e.certMessage, h.nonce, h.cert);
    KeyMessageIff(e.keyMessage, h.point, e.signature);
    SendsAre(h, t0, e);
    ReceivedIff(drive(all[..n + 5]), 8, e.grant);
    ReceivedIff(drive(all[..n + 7]), 116, e.challenge);
    ReceivedIff(drive(all[..n + 8]), 84, e.key);
    CertifiedIff(c, e.challenge[24..116], 0x01);
    SignedWithIff(c, e.challenge[24..116], e.key[44..84], h.nonce + e.key[4..44]);
    SignedWithIff(c, h.cert, e.signature, e.challenge[4..24] + h.point);
    SignatureIs(c, h, e);
  }

  lemma SignatureIs(c: Crypto, h: Host, e: Exchange)
    requires Signs(c, h, e)
    ensures Signature(c, h.cert, h.priv, e.challenge[4..24] + h.point) == Some(e.signature)
  {
    hide Certified, SignedWith;
  }

  lemma AuthSent(c: Crypto, drive: Drive, h: Host, t: seq<Command>, agid: nat)
    requires SignedByHost(c, drive, h, t, agid)
    ensures AuthTrace(c, drive, h, t, agid) == Sent(c, drive, h, t, agid)
  {
    hide CertOk, SignatureOk, Signature;
  }

  lemma AuthenticIsSuccess(c: Crypto, drive: Drive, h: Host, stray: seq<Byte> -> Block, t0: seq<Command>, request: Request, before: Block, e: Exchange)
    requires c.Fitting() && Authentic(c, drive, h, stray, t0, request, e)
    ensures RunCode(c, drive, h, stray, t0, request) == SUCCESS && RunBuffer(c, drive, h, stray, t0, request, before) == e.gets
    ensures RunTrace(c, drive, h, t0, request) == e.SendsAll(t0, request)
  {
    hide Shakes, Signs, Shares, SignedByHost, Sent, AuthTrace, HostSignature, DrivePoint, Granted, Agid, Received, Fit, BusKey, Cmac.AesCmac, Cmac.IsCode;
    HandshakeIff(c, drive, h, t0, e);
    AuthSent(c, drive, h, t0 + Prologue(), e.Agid());
    SharesIff(c, h, stray, e);
    if |e.answer| == 36 {
      Cmac.IsCodeIff(c.cipher, e.busKey, e.gets, e.answer[20..36]);
    }
    ReceivedIff(drive(e.Sends(t0) + [ReadStructure(e.Agid(), Format(request), 36)]), 36, e.answer);
  }

  // The exchange of a run that succeeds.
  function ExchangeOf(c: Crypto, drive: Drive, h: Host, stray: seq<Byte> -> Block, t0: seq<Command>, request: Request): Exchange
    requires Succeeds(c, drive, h, stray, t0, request)
  {
    var t, agid := t0 + Prologue(), Agid(drive, t0);
    var signature := HostSignature(c, drive, h, t, agid).value;
    var busKey, reply := SharedKey(c, drive, h, t, agid, stray), LastReply(c, drive, h, t, agid, request).value;
    Exchange(Fit(drive(t).value, 8), CertMessage(h.nonce, h.cert), Fit(drive(T2(h, t, agid)).value, 116), Fit(drive(T3(h, t, agid)).value, 84),
             signature, KeyMessage(h.point, signature), Fit(reply, 36), busKey, AnswerIn(c, busKey, reply, request))
  }

  lemma SuccessIsAuthentic(c: Crypto, drive: Drive, h: Host, stray: seq<Byte> -> Block, t0: seq<Command>, request: Request)
    requires Succeeds(c, drive, h, stray, t0, request)
    ensures Authentic(c, drive, h, stray, t0, request, ExchangeOf(c, drive, h, stray, t0, request))
  {
    var e := ExchangeOf(c, drive, h, stray, t0, request);
    RunShakes(c, drive, h, stray, t0, request);
    RunSigns(c, drive, h, stray, t0, request);
    RunTells(c, drive, h, stray, t0, request);
    SharesIff(c, h, stray, e);
    hide Shakes, Signs, Shares, Tells;
    assert e.busKey == BusKey(c, h.key, e.key[4..44], stray);
  }

  lemma RunShakes(c: Crypto, drive: Drive, h: Host, stray: seq<Byte> -> Block, t0: seq<Command>, request: Request)
    requires Succeeds(c, drive, h, stray, t0, request)
    ensures Shakes(drive, h, t0, ExchangeOf(c, drive, h, stray, t0, request))
  {
    hide CertOk, SignatureOk, MessageOf, Fit, CertMessage, KeyMessage, Received, Signature, BusKey, AnswerIn, Answers;
    var e := ExchangeOf(c, drive, h, stray, t0, request);
    var all, n := e.Sends(t0), |t0|;
    CertMessageIff(e.certMessage, h.nonce, h.cert);
    KeyMessageIff(e.keyMessage, h.point, e.signature);
    SendsAre(h, t0, e);
    ReceivedIff(drive(all[..n + 5]), 8, e.grant);
    ReceivedIff(drive(all[..n + 7]), 116, e.challenge);
    ReceivedIff(drive(all[..n + 8]), 84, e.key);
  }

  lemma RunSigns(c: Crypto, drive: Drive, h: Host, stray: seq<Byte> -> Block, t0: seq<Command>, request: Request)
    requires Succeeds(c, drive, h, stray, t0, request)
    ensures Signs(c, h, ExchangeOf(c, drive, h, stray, t0, request))
  {
    hide CertOk, SignatureOk, Certified, SignedWith, Fit, BusKey, AnswerIn, Answers;
    var e := ExchangeOf(c, drive, h, stray, t0, request);
    CertifiedIff(c, e.challenge[24..116], 0x01);
    SignedWithIff(c, e.challenge[24..116], e.key[44..84], h.nonce + e.key[4..44]);
    SignedWithIff(c, h.cert, e.signature, e.challenge[4..24] + h.point);
  }

  lemma RunTells(c: Crypto, drive: Drive, h: Host, stray: seq<Byte> -> Block, t0: seq<Command>, request: Request)
    requires Succeeds(c, drive, h, stray, t0, request)
    ensures Tells(c, drive, t0, request, ExchangeOf(c, drive, h, stray, t0, request))
  {
    hide CertOk, SignatureOk, Fit, CertMessage, KeyMessage, Received, Signature, BusKey, Cmac.AesCmac, Cmac.IsCode;
    var e := ExchangeOf(c, drive, h, stray, t0, request);
    SendsAre(h, t0, e);
    Cmac.IsCodeIff(c.cipher, e.busKey, e.gets, e.answer[20..36]);
    ReceivedIff(drive(e.Sends(t0) + [ReadStructure(e.Agid(), Format(request), 36)]), 36, e.answer);
  }

  // The drive grants an AGID and then does not take the host's certificate.
  ghost predicate Refused(drive: Drive, h: Host, t0: seq<Command>) {
    var t := t0 + [ReportKey(0, 0x3f, 2), ReportKey(1, 0x3f, 2), ReportKey(2, 0x3f, 2), ReportKey(3, 0x3f, 2), ReportKey(0, 0, 8)];
    exists grant, m :: Received(drive(t), 8, grant) && MessageOf(m, 116, h.nonce + h.cert) && drive(t + [SendKey(grant[7] / 64, 1, m)]).None?
  }

  lemma RefusedIff(drive: Drive, h: Host, t0: seq<Command>)
    ensures Refused(drive, h, t0) <==> Granted(drive, t0) && drive(T1(h, t0 + Prologue(), Agid(drive, t0))).None?
  {
    hide Fit, CertMessage, MessageOf;
    var t := t0 + Prologue();
    if grant, m :| Received(drive(t), 8, grant) && MessageOf(m, 116, h.nonce + h.cert) && drive(t + [SendKey(grant[7] / 64, 1, m)]).None? {
      ReceivedIff(drive(t), 8, grant);
      CertMessageIff(m, h.nonce, h.cert);
    }
    if Granted(drive, t0) {
      var grant, m := Fit(drive(t).value, 8), CertMessage(h.nonce, h.cert);
      ReceivedIff(drive(t), 8, grant);
      CertMessageIff(m, h.nonce, h.cert);
      assert Received(drive(t), 8, grant) && MessageOf(m, 116, h.nonce + h.cert);
    }
  }

  /** The run succeeds if and only if host and drive authenticate each other in such
      an exchange, and the caller gets what was told in it. */
  lemma SuccessWasAuthenticated(c: Crypto, drive: Drive, h: Host, stray: seq<Byte> -> Block, t0: seq<Command>, request: Request, before: Block)
    requires c.Fitting()
    ensures RunCode(c, drive, h, stray, t0, request) == SUCCESS <==>
            exists e :: && Authentic(c, drive, h, stray, t0, request, e) && RunBuffer(c, drive, h, stray, t0, request, before) == e.gets
                        && RunTrace(c, drive, h, t0, request) == e.SendsAll(t0, request)
    ensures RunCode(c, drive, h, stray, t0, request) != SUCCESS ==>
              RunCode(c, drive, h, stray, t0, request) == if Refused(drive, h, t0) then -2 else -1
  {
    hide Authentic, Succeeds, Refused;
    RefusedIff(drive, h, t0);
    if Succeeds(c, drive, h, stray, t0, request) {
      SuccessIsAuthentic(c, drive, h, stray, t0, request);
      AuthenticIsSuccess(c, drive, h, stray, t0, request, before, ExchangeOf(c, drive, h, stray, t0, request));
    }
    if e :| Authentic(c, drive, h, stray, t0, request, e) {
      AuthenticIsSuccess(c, drive, h, stray, t0, request, before, e);
    }
  }

  // ------------------------------------------------------------------
  // One certificate after the other (aacs.c)

  datatype HostCert = HostCert(priv: seq<Byte>, cert: Cert)

  const NO_CERT := -4
  const REVOKED := -5
  const MMC_OPEN := -6
  const MMC_FAILURE := -7

  /** One opening of the drive: the nonce and the key drawn for it, and all that was
      sent to the drive before. */
  datatype Opening = Opening(nonce: Nonce, key: seq<Byte>, sent: seq<Command>)

  function HostOf(c: Crypto, opening: Opening, hc: HostCert): Host {
    Host(opening.nonce, opening.key, Encode(c.mul(Value(opening.key), c.generator)), hc.cert, hc.priv)
  }

  /** The result and the caller's buffer after trying the certificates in order:
      unverified ones are passed over, and the first success ends it. */
  function TryCerts(c: Crypto, drive: Drive, stray: seq<Byte> -> Block, opening: Opening, hcl: seq<HostCert>, request: Request,
                    t: seq<Command>, code: int, p: Block): (int, Block)
    decreases |hcl|
  {
    if hcl == [] then (code, p)
    else if !CertOk(c, hcl[0].cert, HOST_CERT) then
      TryCerts(c, drive, stray, opening, hcl[1..], request, t, code, p)
    else
      var h := HostOf(c, opening, hcl[0]);
      var r, q := RunCode(c, drive, h, stray, t, request), RunBuffer(c, drive, h, stray, t, request, p);
      if r == SUCCESS then (SUCCESS, q)
      else TryCerts(c, drive, stray, opening, hcl[1..], request, RunTrace(c, drive, h, t, request),
                    if r == CERT_REVOKED then REVOKED else MMC_FAILURE, q)
  }

  /** What was sent before certificate k is tried. */
  function TraceAt(c: Crypto, drive: Drive, opening: Opening, hcl: seq<HostCert>, request: Request, t: seq<Command>, k: nat): seq<Command>
    requires k <= |hcl|
  {
    if k == 0 then t
    else if !CertOk(c, hcl[0].cert, HOST_CERT) then TraceAt(c, drive, opening, hcl[1..], request, t, k - 1)
    else TraceAt(c, drive, opening, hcl[1..], request, RunTrace(c, drive, HostOf(c, opening, hcl[0]), t, request), k - 1)
  }

  // What was sent after the first certificate.
  function Behind(c: Crypto, drive: Drive, opening: Opening, hcl: seq<HostCert>, request: Request, t: seq<Command>): seq<Command>
    requires hcl != []
  {
    if !CertOk(c, hcl[0].cert, HOST_CERT) then t else RunTrace(c, drive, HostOf(c, opening, hcl[0]), t, request)
  }

  // Certificate k is the licensing administrator's, for a host; and the drive serves
  // the host under it.
  ghost predicate ServedAt(c: Crypto, drive: Drive, stray: seq<Byte> -> Block, opening: Opening, hcl: seq<HostCert>, request: Request,
                           t: seq<Command>, k: nat, e: Exchange)
  {
    && k < |hcl| && Certified(c, hcl[k].cert, 0x02)
    && Authentic(c, drive, HostOf(c, opening, hcl[k]), stray, TraceAt(c, drive, opening, hcl, request, t, k), request, e)
  }

  ghost predicate FirstServed(c: Crypto, drive: Drive, stray: seq<Byte> -> Block, opening: Opening, hcl: seq<HostCert>, request: Request,
                              t: seq<Command>, k: nat, e: Exchange)
  {
    && ServedAt(c, drive, stray, opening, hcl, request, t, k, e)
    && forall j: nat, other :: j < k ==> !ServedAt(c, drive, stray, opening, hcl, request, t, j, other)
  }

  lemma ServedBehind(c: Crypto, drive: Drive, stray: seq<Byte> -> Block, opening: Opening, hcl: seq<HostCert>, request: Request,
                     t: seq<Command>, k: nat, e: Exchange)
    requires hcl != []
    ensures ServedAt(c, drive, stray, opening, hcl, request, t, k + 1, e) <==>
            ServedAt(c, drive, stray, opening, hcl[1..], request, Behind(c, drive, opening, hcl, request, t), k, e)
  {
    hide Certified, Authentic, CertOk, RunTrace, HostOf;
    if k + 1 < |hcl| {
      assert hcl[1..][k] == hcl[k + 1];
    }
  }

  // The code when no certificate is served: that of the last one that is presented.
  ghost function Failure(c: Crypto, drive: Drive, opening: Opening, hcl: seq<HostCert>, request: Request, t: seq<Command>, code: int): int
    decreases |hcl|
  {
    if hcl == [] then code
    else Failure(c, drive, opening, hcl[1..], request, Behind(c, drive, opening, hcl, request, t),
                 if !Certified(c, hcl[0].cert, 0x02) then code else if Refused(drive, HostOf(c, opening, hcl[0]), t) then -5 else -7)
  }

  lemma FirstIsServed(c: Crypto, drive: Drive, stray: seq<Byte> -> Block, opening: Opening, hcl: seq<HostCert>,
                      request: Request, t: seq<Command>, p: Block)
    requires c.Fitting() && hcl != [] && Certified(c, hcl[0].cert, 0x02)
    requires RunCode(c, drive, HostOf(c, opening, hcl[0]), stray, t, request) == SUCCESS
    ensures exists e :: FirstServed(c, drive, stray, opening, hcl, request, t, 0, e)
    ensures forall k: nat, e :: FirstServed(c, drive, stray, opening, hcl, request, t, k, e) ==>
              e.gets == RunBuffer(c, drive, HostOf(c, opening, hcl[0]), stray, t, request, p)
  {
    hide Certified, Authentic, CertOk, RunTrace, RunCode, RunBuffer, HostOf;
    var h := HostOf(c, opening, hcl[0]);
    SuccessWasAuthenticated(c, drive, h, stray, t, request, p);
    var first :| Authentic(c, drive, h, stray, t, request, first);
    assert ServedAt(c, drive, stray, opening, hcl, request, t, 0, first);
    assert FirstServed(c, drive, stray, opening, hcl, request, t, 0, first);
    forall k: nat, e | FirstServed(c, drive, stray, opening, hcl, request, t, k, e)
      ensures e.gets == RunBuffer(c, drive, h, stray, t, request, p)
    {
      AuthenticIsSuccess(c, drive, h, stray, t, request, p, e);
    }
  }

  lemma NotServed(c: Crypto, drive: Drive, stray: seq<Byte> -> Block, opening: Opening, hcl: seq<HostCert>, request: Request,
                  t: seq<Command>)
    requires c.Fitting() && hcl != []
    requires Certified(c, hcl[0].cert, 0x02) ==> RunCode(c, drive, HostOf(c, opening, hcl[0]), stray, t, request) != SUCCESS
    ensures forall e :: !ServedAt(c, drive, stray, opening, hcl, request, t, 0, e)
  {
    hide Certified, Authentic, RunCode, HostOf;
    if e :| ServedAt(c, drive, stray, opening, hcl, request, t, 0, e) {
      AuthenticIsSuccess(c, drive, HostOf(c, opening, hcl[0]), stray, t, request, ZeroBlock(), e);
      assert false;
    }
  }

  lemma FirstServedBehind(c: Crypto, drive: Drive, stray: seq<Byte> -> Block, opening: Opening, hcl: seq<HostCert>, request: Request,
                          t: seq<Command>)
    requires hcl != [] && forall e :: !ServedAt(c, drive, stray, opening, hcl, request, t, 0, e)
    ensures var u := Behind(c, drive, opening, hcl, request, t);
      && (forall k: nat, e :: FirstServed(c, drive, stray, opening, hcl, request, t, k, e) ==>
            k > 0 && FirstServed(c, drive, stray, opening, hcl[1..], request, u, k - 1, e))
      && (forall k: nat, e :: FirstServed(c, drive, stray, opening, hcl[1..], request, u, k, e) ==>
            FirstServed(c, drive, stray, opening, hcl, request, t, k + 1, e))
  {
    hide ServedAt, Behind;
    var u := Behind(c, drive, opening, hcl, request, t);
    forall k: nat, e
      ensures ServedAt(c, drive, stray, opening, hcl, request, t, k + 1, e) <==> ServedAt(c, drive, stray, opening, hcl[1..], request, u, k, e)
    {
      ServedBehind(c, drive, stray, opening, hcl, request, t, k, e);
    }
    forall k: nat, e | FirstServed(c, drive, stray, opening, hcl[1..], request, u, k, e)
      ensures FirstServed(c, drive, stray, opening, hcl, request, t, k + 1, e)
    {
      forall j: nat, other | j < k + 1
        ensures !ServedAt(c, drive, stray, opening, hcl, request, t, j, other)
      {
        assert j > 0 ==> !ServedAt(c, drive, stray, opening, hcl[1..], request, u, j - 1, other);
      }
    }
  }

  /** Trying them succeeds if and only if the drive serves the host under one of them,
      and the buffer then holds what it is told under the first such. */
  lemma {:induction false} CertsServedIff(c: Crypto, drive: Drive, stray: seq<Byte> -> Block, opening: Opening, hcl: seq<HostCert>,
                                          request: Request, t: seq<Command>, code: int, p: Block)
    requires c.Fitting() && code != SUCCESS
    ensures var (r, q) := TryCerts(c, drive, stray, opening, hcl, request, t, code, p);
      && (r == SUCCESS <==> exists k: nat, e :: FirstServed(c, drive, stray, opening, hcl, request, t, k, e))
      && (forall k: nat, e :: FirstServed(c, drive, stray, opening, hcl, request, t, k, e) ==> q == e.gets)
      && (r != SUCCESS ==> r == Failure(c, drive, opening, hcl, request, t, code))
    decreases |hcl|
  {
    hide Certified, Authentic, CertOk, RunTrace, RunCode, RunBuffer, HostOf, Refused;
    if hcl != [] {
      var h, u := HostOf(c, opening, hcl[0]), Behind(c, drive, opening, hcl, request, t);
      CertifiedIff(c, hcl[0].cert, 0x02);
      SuccessWasAuthenticated(c, drive, h, stray, t, request, p);
      if Certified(c, hcl[0].cert, 0x02) && RunCode(c, drive, h, stray, t, request) == SUCCESS {
        FirstIsServed(c, drive, stray, opening, hcl, request, t, p);
      } else {
        var e := if !Certified(c, hcl[0].cert, 0x02) then code else if Refused(drive, h, t) then -5 else -7;
        var q := if !Certified(c, hcl[0].cert, 0x02) then p else RunBuffer(c, drive, h, stray, t, request, p);
        CertsServedIff(c, drive, stray, opening, hcl[1..], request, u, e, q);
        NotServed(c, drive, stray, opening, hcl, request, t);
        FirstServedBehind(c, drive, stray, opening, hcl, request, t);
      }
    }
  }

  /** _mmc_read_auth of aacs.c: open the drive, and try every host certificate. */
  method ReadWithCerts(c: Crypto, drive: Option<Drive>, stray: seq<Byte> -> Block, opening: Opening, hcl: seq<HostCert>,
                       request: Request, p: array<Byte>) returns (code: int)
    requires c.Fitting() && p.Length == 16
    modifies p
    ensures match drive
            case None => code == MMC_OPEN && p[..] == old(p[..])
            case Some(d) => (code, p[..]) == TryCerts(c, d, stray, opening, hcl, request, opening.sent, NO_CERT, old(p[..]))
    ensures match drive
            case None => code == -6
            case Some(d) =>
              && (code == 0 <==> exists k: nat, e :: FirstServed(c, d, stray, opening, hcl, request, opening.sent, k, e))
              && (forall k: nat, e :: FirstServed(c, d, stray, opening, hcl, request, opening.sent, k, e) ==> p[..] == e.gets)
              && (code != 0 ==> code == Failure(c, d, opening, hcl, request, opening.sent, -4))
  {
    hide RunCode, RunBuffer, RunTrace, CertOk, FirstServed, Failure, Authentic;
    if drive.None? {
      return MMC_OPEN;
    }
    CertsServedIff(c, drive.value, stray, opening, hcl, request, opening.sent, NO_CERT, p[..]);
    var mmc := new Mmc(c, drive.value, stray, opening.nonce, opening.key, opening.sent);
    code := NO_CERT;
    ghost var outcome := TryCerts(c, drive.value, stray, opening, hcl, request, opening.sent, code, p[..]);
    var i := 0;
    assert hcl[0..] == hcl;
    while i < |hcl|
      invariant 0 <= i <= |hcl| && fresh(mmc)
      invariant outcome == TryCerts(c, drive.value, stray, opening, hcl[i..], request, mmc.trace, code, p[..])
    {
      assert hcl[i..][0] == hcl[i] && hcl[i..][1..] == hcl[i + 1..];
      if CertOk(c, hcl[i].cert, HOST_CERT) {
        assert mmc.AsHost(hcl[i].priv, hcl[i].cert) == HostOf(c, opening, hcl[i]);
        var r := mmc.ReadAuth(hcl[i].priv, hcl[i].cert, request, p);
        if r == SUCCESS {
          return SUCCESS;
        }
        code := if r == CERT_REVOKED then REVOKED else MMC_FAILURE;
      }
      i := i + 1;
    }
  }

  /** After the handshake the drive sends an identifier, whether its code matches
      or not. */
  predicate Arrives(c: Crypto, drive: Drive, h: Host, t0: seq<Command>) {
    Granted(drive, t0) &&
    var t, agid := t0 + Prologue(), Agid(drive, t0);
    SignedByHost(c, drive, h, t, agid) && LastReply(c, drive, h, t, agid, VolumeId).Some?
  }

  /** A drive that is authenticated and then sends an identifier whose code does
      not match. */
  predicate SendsMismatch(c: Crypto, drive: Drive, h: Host, stray: seq<Byte> -> Block, t0: seq<Command>, reply: seq<Byte>) {
    Granted(drive, t0) &&
    var t, agid := t0 + Prologue(), Agid(drive, t0);
    && SignedByHost(c, drive, h, t, agid)
    && LastReply(c, drive, h, t, agid, VolumeId) == Some(reply)
    && !CodeMatches(c, SharedKey(c, drive, h, t, agid, stray), reply)
  }

  // What one run leaves behind.
  lemma RunLeaves(c: Crypto, drive: Drive, h: Host, stray: seq<Byte> -> Block, t0: seq<Command>, before: Block)
    ensures var r, q := RunCode(c, drive, h, stray, t0, VolumeId), RunBuffer(c, drive, h, stray, t0, VolumeId, before);
      && (r == SUCCESS ==> Arrives(c, drive, h, t0))
      && (!Arrives(c, drive, h, t0) ==> q == before)
      && (r != SUCCESS && Arrives(c, drive, h, t0) ==>
            exists reply :: SendsMismatch(c, drive, h, stray, t0, reply) && q == Payload(reply))
      && (forall reply :: SendsMismatch(c, drive, h, stray, t0, reply) ==> r == ERROR && q == Payload(reply))
  {
    hide CodeMatches, SharedKey, Payload;
    if Granted(drive, t0) && SignedByHost(c, drive, h, t0 + Prologue(), Agid(drive, t0)) {
      var reply := LastReply(c, drive, h, t0 + Prologue(), Agid(drive, t0), VolumeId);
      if reply.Some? && RunCode(c, drive, h, stray, t0, VolumeId) != SUCCESS {
        assert SendsMismatch(c, drive, h, stray, t0, reply.value);
      }
    }
  }

  // An identifier arrives under certificate j, when it is tried.
  predicate ArrivesAt(c: Crypto, drive: Drive, opening: Opening, hcl: seq<HostCert>, t: seq<Command>, j: nat) {
    && j < |hcl| && CertOk(c, hcl[j].cert, HOST_CERT)
    && Arrives(c, drive, HostOf(c, opening, hcl[j]), TraceAt(c, drive, opening, hcl, VolumeId, t, j))
  }

  predicate SucceedsAt(c: Crypto, drive: Drive, stray: seq<Byte> -> Block, opening: Opening, hcl: seq<HostCert>, t: seq<Command>, j: nat) {
    && j < |hcl| && CertOk(c, hcl[j].cert, HOST_CERT)
    && RunCode(c, drive, HostOf(c, opening, hcl[j]), stray, TraceAt(c, drive, opening, hcl, VolumeId, t, j), VolumeId) == SUCCESS
  }

  /** Certificate k is the last one under which an identifier arrives, its code
      does not match, and none before it succeeds. */
  ghost predicate LastMismatch(c: Crypto, drive: Drive, stray: seq<Byte> -> Block, opening: Opening, hcl: seq<HostCert>,
                               t: seq<Command>, k: nat, reply: seq<Byte>)
  {
    && k < |hcl| && CertOk(c, hcl[k].cert, HOST_CERT)
    && SendsMismatch(c, drive, HostOf(c, opening, hcl[k]), stray, TraceAt(c, drive, opening, hcl, VolumeId, t, k), reply)
    && (forall j :: 0 <= j < k ==> !SucceedsAt(c, drive, stray, opening, hcl, t, j))
    && (forall j :: k < j < |hcl| ==> !ArrivesAt(c, drive, opening, hcl, t, j))
  }

  // The certificates behind the first one.
  lemma MismatchBehind(c: Crypto, drive: Drive, stray: seq<Byte> -> Block, opening: Opening, hcl: seq<HostCert>,
                       t: seq<Command>, k: nat, reply: seq<Byte>)
    requires hcl != [] && k > 0 && !SucceedsAt(c, drive, stray, opening, hcl, t, 0)
    ensures LastMismatch(c, drive, stray, opening, hcl, t, k, reply) <==>
            LastMismatch(c, drive, stray, opening, hcl[1..], Behind(c, drive, opening, hcl, VolumeId, t), k - 1, reply)
  {
    hide CertOk, RunCode, SendsMismatch, Arrives, RunTrace, HostOf;
    var rest, u := hcl[1..], Behind(c, drive, opening, hcl, VolumeId, t);
    forall j | 0 <= j < |rest|
      ensures SucceedsAt(c, drive, stray, opening, hcl, t, j + 1) <==> SucceedsAt(c, drive, stray, opening, rest, u, j)
      ensures ArrivesAt(c, drive, opening, hcl, t, j + 1) <==> ArrivesAt(c, drive, opening, rest, u, j)
    {
      assert hcl[j + 1] == rest[j];
    }
    if k < |hcl| {
      assert hcl[k] == rest[k - 1];
    }
    if LastMismatch(c, drive, stray, opening, rest, u, k - 1, reply) {
      forall j | 0 <= j < k
        ensures !SucceedsAt(c, drive, stray, opening, hcl, t, j)
      {
        assert j > 0 ==> !SucceedsAt(c, drive, stray, opening, rest, u, j - 1);
      }
      forall j | k < j < |hcl|
        ensures !ArrivesAt(c, drive, opening, hcl, t, j)
      {
        assert !ArrivesAt(c, drive, opening, rest, u, j - 1);
      }
    }
    if LastMismatch(c, drive, stray, opening, hcl, t, k, reply) {
      forall j | 0 <= j < k - 1
        ensures !SucceedsAt(c, drive, stray, opening, rest, u, j)
      {
        assert !SucceedsAt(c, drive, stray, opening, hcl, t, j + 1);
      }
      forall j | k - 1 < j < |rest|
        ensures !ArrivesAt(c, drive, opening, rest, u, j)
      {
        assert !ArrivesAt(c, drive, opening, hcl, t, j + 1);
      }
    }
  }

  // The only certificate is the last one.
  lemma OnlyMismatch(c: Crypto, drive: Drive, stray: seq<Byte> -> Block, opening: Opening, hc: HostCert, t: seq<Command>, reply: seq<Byte>)
    requires CertOk(c, hc.cert, HOST_CERT) && SendsMismatch(c, drive, HostOf(c, opening, hc), stray, t, reply)
    ensures LastMismatch(c, drive, stray, opening, [hc], t, 0, reply)
  {
    hide CertOk, SendsMismatch;
  }

  // No identifier arrives at all.
  ghost predicate NoneArrives(c: Crypto, drive: Drive, opening: Opening, hcl: seq<HostCert>, t: seq<Command>) {
    forall j :: 0 <= j < |hcl| ==> !ArrivesAt(c, drive, opening, hcl, t, j)
  }

  lemma NoneBehind(c: Crypto, drive: Drive, opening: Opening, hcl: seq<HostCert>, t: seq<Command>)
    requires hcl != [] && NoneArrives(c, drive, opening, hcl[1..], Behind(c, drive, opening, hcl, VolumeId, t))
    ensures forall j :: 0 < j < |hcl| ==> !ArrivesAt(c, drive, opening, hcl, t, j)
  {
    hide CertOk, Arrives, RunTrace, HostOf;
    forall j | 0 < j < |hcl|
      ensures !ArrivesAt(c, drive, opening, hcl, t, j)
    {
      assert hcl[j] == hcl[1..][j - 1] && !ArrivesAt(c, drive, opening, hcl[1..], Behind(c, drive, opening, hcl, VolumeId, t), j - 1);
    }
  }

  // What is left when nothing succeeds.
  ghost predicate Remains(c: Crypto, drive: Drive, stray: seq<Byte> -> Block, opening: Opening, hcl: seq<HostCert>,
                          t: seq<Command>, before: Block, q: Block)
  {
    || (NoneArrives(c, drive, opening, hcl, t) && q == before)
    || exists k: nat, reply: seq<Byte> :: LastMismatch(c, drive, stray, opening, hcl, t, k, reply) && q == Payload(reply)
  }

  // The same with one more certificate in front, which does not succeed.
  lemma RemainsBehind(c: Crypto, drive: Drive, stray: seq<Byte> -> Block, opening: Opening, hcl: seq<HostCert>,
                      t: seq<Command>, before: Block, middle: Block, q: Block)
    requires hcl != [] && !SucceedsAt(c, drive, stray, opening, hcl, t, 0)
    requires middle == if !CertOk(c, hcl[0].cert, HOST_CERT) then before
                       else RunBuffer(c, drive, HostOf(c, opening, hcl[0]), stray, t, VolumeId, before)
    requires Remains(c, drive, stray, opening, hcl[1..], Behind(c, drive, opening, hcl, VolumeId, t), middle, q)
    ensures Remains(c, drive, stray, opening, hcl, t, before, q)
  {
    hide CertOk, RunCode, RunBuffer, RunTrace, SendsMismatch, Arrives, HostOf, Payload;
    var rest, u := hcl[1..], Behind(c, drive, opening, hcl, VolumeId, t);
    if k: nat, reply: seq<Byte> :| LastMismatch(c, drive, stray, opening, rest, u, k, reply) && q == Payload(reply) {
      MismatchBehind(c, drive, stray, opening, hcl, t, k + 1, reply);
    } else {
      NoneBehind(c, drive, opening, hcl, t);
      RunLeaves(c, drive, HostOf(c, opening, hcl[0]), stray, t, before);
      if ArrivesAt(c, drive, opening, hcl, t, 0) {
        var reply :| SendsMismatch(c, drive, HostOf(c, opening, hcl[0]), stray, t, reply) && middle == Payload(reply);
        assert LastMismatch(c, drive, stray, opening, hcl, t, 0, reply);
      } else {
        assert NoneArrives(c, drive, opening, hcl, t);
      }
    }
  }

  /** When no certificate succeeds, the buffer is as it was if no identifier
      arrives, and else holds the one that arrives last. */
  lemma {:induction false} WhatRemains(c: Crypto, drive: Drive, stray: seq<Byte> -> Block, opening: Opening, hcl: seq<HostCert>,
                                       t: seq<Command>, code: int, before: Block)
    requires code != SUCCESS
    ensures var (r, q) := TryCerts(c, drive, stray, opening, hcl, VolumeId, t, code, before);
            r != SUCCESS ==> Remains(c, drive, stray, opening, hcl, t, before, q)
    decreases |hcl|
  {
    hide CertOk, RunCode, RunBuffer, RunTrace, SendsMismatch, Arrives, HostOf, Remains;
    if hcl == [] {
      RemainsOfNone(c, drive, stray, opening, t, before);
    } else if !CertOk(c, hcl[0].cert, HOST_CERT) {
      WhatRemains(c, drive, stray, opening, hcl[1..], t, code, before);
      if TryCerts(c, drive, stray, opening, hcl[1..], VolumeId, t, code, before).0 != SUCCESS {
        RemainsBehind(c, drive, stray, opening, hcl, t, before, before, TryCerts(c, drive, stray, opening, hcl[1..], VolumeId, t, code, before).1);
      }
    } else {
      var h := HostOf(c, opening, hcl[0]);
      var r, q := RunCode(c, drive, h, stray, t, VolumeId), RunBuffer(c, drive, h, stray, t, VolumeId, before);
      if r != SUCCESS {
        var u, e := RunTrace(c, drive, h, t, VolumeId), if r == CERT_REVOKED then REVOKED else MMC_FAILURE;
        WhatRemains(c, drive, stray, opening, hcl[1..], u, e, q);
        if TryCerts(c, drive, stray, opening, hcl[1..], VolumeId, u, e, q).0 != SUCCESS {
          RemainsBehind(c, drive, stray, opening, hcl, t, before, q, TryCerts(c, drive, stray, opening, hcl[1..], VolumeId, u, e, q).1);
        }
      }
    }
  }

  lemma RemainsOfNone(c: Crypto, drive: Drive, stray: seq<Byte> -> Block, opening: Opening, t: seq<Command>, before: Block)
    ensures Remains(c, drive, stray, opening, [], t, before, before)
  {
    assert NoneArrives(c, drive, opening, [], t);
  }

  /** And a certificate that is the last under which an identifier arrives, with a
      code that does not match, decides: nothing succeeds, and that identifier is
      left. */
  lemma {:induction false} MismatchDecides(c: Crypto, drive: Drive, stray: seq<Byte> -> Block, opening: Opening, hcl: seq<HostCert>,
                                           t: seq<Command>, code: int, before: Block, k: nat, reply: seq<Byte>)
    requires code != SUCCESS && LastMismatch(c, drive, stray, opening, hcl, t, k, reply)
    ensures var (r, q) := TryCerts(c, drive, stray, opening, hcl, VolumeId, t, code, before);
            r != SUCCESS && q == Payload(reply)
    decreases |hcl|
  {
    hide CertOk, RunCode, RunBuffer, RunTrace, SendsMismatch, Arrives, HostOf, Payload, LastMismatch;
    MismatchParts(c, drive, stray, opening, hcl, t, k, reply);
    var h := HostOf(c, opening, hcl[0]);
    var r, q := RunCode(c, drive, h, stray, t, VolumeId), RunBuffer(c, drive, h, stray, t, VolumeId, before);
    var u, e := RunTrace(c, drive, h, t, VolumeId), if r == CERT_REVOKED then REVOKED else MMC_FAILURE;
    if k == 0 {
      RunLeaves(c, drive, h, stray, t, before);
      NothingAfter(c, drive, stray, opening, hcl[1..], u, e, q);
    } else {
      MismatchBehind(c, drive, stray, opening, hcl, t, k, reply);
      if !CertOk(c, hcl[0].cert, HOST_CERT) {
        MismatchDecides(c, drive, stray, opening, hcl[1..], t, code, before, k - 1, reply);
      } else {
        MismatchDecides(c, drive, stray, opening, hcl[1..], u, e, q, k - 1, reply);
      }
    }
  }

  lemma MismatchParts(c: Crypto, drive: Drive, stray: seq<Byte> -> Block, opening: Opening, hcl: seq<HostCert>,
                      t: seq<Command>, k: nat, reply: seq<Byte>)
    requires LastMismatch(c, drive, stray, opening, hcl, t, k, reply)
    ensures k < |hcl| && (k > 0 ==> !SucceedsAt(c, drive, stray, opening, hcl, t, 0))
    ensures k == 0 ==> && CertOk(c, hcl[0].cert, HOST_CERT) && SendsMismatch(c, drive, HostOf(c, opening, hcl[0]), stray, t, reply)
                       && NoneArrives(c, drive, opening, hcl[1..], RunTrace(c, drive, HostOf(c, opening, hcl[0]), t, VolumeId))
  {
    hide CertOk, RunCode, RunTrace, SendsMismatch, Arrives, HostOf;
    if k == 0 {
      var u := RunTrace(c, drive, HostOf(c, opening, hcl[0]), t, VolumeId);
      forall j | 0 <= j < |hcl[1..]|
        ensures !ArrivesAt(c, drive, opening, hcl[1..], u, j)
      {
        assert hcl[1..][j] == hcl[j + 1] && !ArrivesAt(c, drive, opening, hcl, t, j + 1);
      }
    }
  }

  // When no identifier arrives, nothing changes.
  lemma {:induction false} NothingAfter(c: Crypto, drive: Drive, stray: seq<Byte> -> Block, opening: Opening, hcl: seq<HostCert>,
                                        t: seq<Command>, code: int, before: Block)
    requires code != SUCCESS && NoneArrives(c, drive, opening, hcl, t)
    ensures var (r, q) := TryCerts(c, drive, stray, opening, hcl, VolumeId, t, code, before); r != SUCCESS && q == before
    decreases |hcl|
  {
    hide CertOk, RunCode, RunBuffer, RunTrace, SendsMismatch, Arrives, HostOf;
    if hcl != [] {
      var h := HostOf(c, opening, hcl[0]);
      assert !ArrivesAt(c, drive, opening, hcl, t, 0);
      RunLeaves(c, drive, h, stray, t, before);
      var u := Behind(c, drive, opening, hcl, VolumeId, t);
      forall j | 0 <= j < |hcl[1..]|
        ensures !ArrivesAt(c, drive, opening, hcl[1..], u, j)
      {
        assert hcl[1..][j] == hcl[j + 1] && !ArrivesAt(c, drive, opening, hcl, t, j + 1);
      }
      var r := RunCode(c, drive, h, stray, t, VolumeId);
      var e := if !CertOk(c, hcl[0].cert, HOST_CERT) then code else if r == CERT_REVOKED then REVOKED else MMC_FAILURE;
      NothingAfter(c, drive, stray, opening, hcl[1..], u, e, before);
    }
  }

  // ------------------------------------------------------------------
  // An honest drive

  datatype Device = Device(agid: nat, nonce: Nonce, cert: Cert, priv: seq<Byte>, key: nat, vid: Block, serial: Block, dataKey: Block)

  // The last message of a kind that the host sent.
  function LastSent(t: seq<Command>, format: nat): Option<seq<Byte>>
    decreases |t|
  {
    if t == [] then None
    else if t[|t| - 1].SendKey? && t[|t| - 1].format == format then Some(t[|t| - 1].data)
    else LastSent(t[..|t| - 1], format)
  }

  // It signs the host's nonce and its point.
  function KeyReply(c: Crypto, d: Device, host: Option<seq<Byte>>): Option<seq<Byte>> {
    if host.None? || |host.value| != 116 then None else
    var point := Encode(c.mul(d.key, c.generator));
    var signature := Signature(c, d.cert, d.priv, host.value[4..24] + point);
    if signature.None? then None else Some(KeyMessage(point, signature.value))
  }

  predicate TakesCert(c: Crypto, data: seq<Byte>) {
    |data| == 116 && CertOk(c, data[24..116], HOST_CERT)
  }

  predicate TakesKey(c: Crypto, d: Device, host: Option<seq<Byte>>, data: seq<Byte>) {
    && host.Some? && TakesCert(c, host.value) && |data| == 84
    && SignatureOk(c, PublicKey(host.value[24..116]), data[44..84], d.nonce + data[4..44])
  }

  // What it has to tell.
  function Secret(d: Device, request: Request): Block {
    match request
    case VolumeId => d.vid
    case SerialNumber => d.serial
    case DataKeys => d.dataKey
    case Unknown => ZeroBlock()
  }

  // An identifier and its code, or the encrypted data keys, under a bus key.
  function Told(c: Crypto, d: Device, request: Request, busKey: Block): seq<Byte> {
    if request == DataKeys then Zeros(4) + c.cipher.enc(busKey, d.dataKey) + Zeros(16)
    else Zeros(4) + Secret(d, request) + Cmac.AesCmac(c.cipher, busKey, Secret(d, request))
  }

  // Under the key that the drive derives from the host's last key message.
  function StructureReply(c: Crypto, d: Device, request: Request, key: Option<seq<Byte>>): Option<seq<Byte>> {
    if key.None? || |key.value| != 84 then None else
    Some(Told(c, d, request, Low128(c.mul(d.key, Decode(key.value[4..44])).x)))
  }

  function Reply(c: Crypto, d: Device, t: seq<Command>): Option<seq<Byte>>
    requires d.agid < 4
  {
    if t == [] then None else
    match t[|t| - 1]
    case ReportKey(agid, format, _) =>
      if format == 0x3f then Some([])
      else if format == 0 then Some(Zeros(7) + [d.agid * 64])
      else if agid != d.agid then None
      else if format == 1 then Some(CertMessage(d.nonce, d.cert))
      else if format == 2 then KeyReply(c, d, LastSent(t, 1))
      else None
    case SendKey(agid, format, data) =>
      if agid != d.agid then None
      else if format == 1 then if TakesCert(c, data) then Some([]) else None
      else if format == 2 then if TakesKey(c, d, LastSent(t, 1), data) then Some([]) else None
      else None
    case ReadStructure(agid, format, _) =>
      if agid != d.agid then None
      else if format == 0x80 then StructureReply(c, d, VolumeId, LastSent(t, 2))
      else if format == 0x81 then StructureReply(c, d, SerialNumber, LastSent(t, 2))
      else if format == 0x84 then StructureReply(c, d, DataKeys, LastSent(t, 2))
      else None
  }

  function HonestDrive(c: Crypto, d: Device): Drive
    requires d.agid < 4
  {
    t => Reply(c, d, t)
  }

  /** The host sends the point of its key, and the shared point has an
      x-coordinate of at least sixteen bytes. */
  ghost predicate Meets(c: Crypto, d: Device, h: Host) {
    && c.Lawful() && c.Fitting() && d.agid < 4
    && h.point == Encode(c.mul(Value(h.key), c.generator))
    && |Minimal(c.mul(Value(h.key), c.mul(d.key, c.generator)).x)| >= 16
  }

  /** And both sides hold certificates and the keys that belong to them. */
  ghost predicate Honest(c: Crypto, d: Device, h: Host) {
    && Meets(c, d, h)
    && CertOk(c, d.cert, DRIVE_CERT) && c.ownKeys(PublicKey(d.cert), d.priv)
    && CertOk(c, h.cert, HOST_CERT) && c.ownKeys(PublicKey(h.cert), h.priv)
  }

  lemma OneByteMore(q: nat)
    requires q > 0
    ensures |Minimal(256 * q)| == |Minimal(q)| + 1
  {
    assert (256 * q) / 256 == q;
  }

  lemma {:induction false} MinimalOfPower(n: nat)
    ensures |Minimal(Pow2(8 * n))| == n + 1
  {
    if n > 0 {
      BytePower(8 * (n - 1));
      MinimalOfPower(n - 1);
      OneByteMore(Pow2(8 * (n - 1)));
    } else {
      assert Pow2(0) == 1 && Minimal(1) == Minimal(0) + [1];
    }
  }

  // Cryptography in its simplest form: one shared point, every signature good.
  function Simplest(q: nat): Crypto {
    Crypto(BlockCipher((k, x) => x, (k, x) => x), Point(q, q), (k, p) => Point(q, q),
           (pub, priv, data) => Some((0, 0)), (pub, r, s, data) => true, (pub, priv) => true)
  }

  function Stamp(kind: Byte): Cert {
    [kind, 0, 0, 0x5c] + Zeros(88)
  }

  /** The conditions on an honest pair can be met. */
  lemma HonestPairExists()
    ensures exists c, d, h :: Honest(c, d, h) && c.cipher.Lawful()
  {
    var n := 15;
    var q := Pow2(8 * n);
    MinimalOfPower(n);
    var c := Simplest(q);
    assert Fits(q) && Fits(0);
    assert c.Lawful() && c.Fitting();
    var d := Device(0, Zeros(20), Stamp(DRIVE_CERT), [], 0, ZeroBlock(), ZeroBlock(), ZeroBlock());
    var h := Host(Zeros(20), [], Encode(Point(q, q)), Stamp(HOST_CERT), []);
    assert CertOk(c, d.cert, DRIVE_CERT) && CertOk(c, h.cert, HOST_CERT);
    assert Honest(c, d, h);
  }

  lemma LastSentStep(t: seq<Command>, cmd: Command, format: nat)
    ensures LastSent(t + [cmd], format) ==
            if cmd.SendKey? && cmd.format == format then Some(cmd.data) else LastSent(t, format)
  {
    assert (t + [cmd])[..|t|] == t;
  }

  // What the drive remembers at each step.
  lemma Remembered(h: Host, t: seq<Command>, agid: nat, signature: Bytes40)
    ensures LastSent(T3(h, t, agid), 1) == LastSent(T4(h, t, agid, signature), 1) == Some(CertMessage(h.nonce, h.cert))
    ensures forall format :: LastSent(T4(h, t, agid, signature) + [ReadStructure(agid, format, 36)], 2) == Some(KeyMessage(h.point, signature))
  {
    LastSentStep(t, SendKey(agid, 1, CertMessage(h.nonce, h.cert)), 1);
    LastSentStep(T1(h, t, agid), ReportKey(agid, 1, 116), 1);
    LastSentStep(T2(h, t, agid), ReportKey(agid, 2, 84), 1);
    LastSentStep(T3(h, t, agid), SendKey(agid, 2, KeyMessage(h.point, signature)), 1);
    LastSentStep(T3(h, t, agid), SendKey(agid, 2, KeyMessage(h.point, signature)), 2);
    forall format
      ensures LastSent(T4(h, t, agid, signature) + [ReadStructure(agid, format, 36)], 2) == Some(KeyMessage(h.point, signature))
    {
      LastSentStep(T4(h, t, agid, signature), ReadStructure(agid, format, 36), 2);
    }
  }

  lemma CertParts(nonce: Nonce, cert: Cert)
    ensures var m := CertMessage(nonce, cert);
            |m| == 116 && m[4..24] == nonce == DriveNonce(m) && m[24..116] == cert == DriveCert(m)
  {
  }

  lemma KeyParts(point: Bytes40, signature: Bytes40)
    ensures var m := KeyMessage(point, signature);
            |m| == 84 && m[4..44] == point == DrivePoint(m) && m[44..84] == signature == DriveSignature(m)
  {
  }

  lemma CertReplies(c: Crypto, d: Device, h: Host, t: seq<Command>)
    requires d.agid < 4 && CertOk(c, h.cert, HOST_CERT)
    ensures Reply(c, d, T1(h, t, d.agid)) == Some([])
    ensures Reply(c, d, T2(h, t, d.agid)) == Some(CertMessage(d.nonce, d.cert))
  {
    CertParts(h.nonce, h.cert);
  }

  lemma DriveIsCertified(c: Crypto, d: Device, h: Host, t: seq<Command>)
    requires Honest(c, d, h)
    ensures CertifiedDrive(c, HonestDrive(c, d), h, t, d.agid)
    ensures DriveNonce(HonestDrive(c, d)(T2(h, t, d.agid)).value) == d.nonce
    ensures DriveCert(HonestDrive(c, d)(T2(h, t, d.agid)).value) == d.cert
  {
    CertReplies(c, d, h, t);
    CertParts(d.nonce, d.cert);
  }

  lemma ReplyToKey(c: Crypto, d: Device, h: Host, t: seq<Command>)
    requires d.agid < 4
    ensures Reply(c, d, T3(h, t, d.agid)) == KeyReply(c, d, Some(CertMessage(h.nonce, h.cert)))
  {
    Remembered(h, t, d.agid, h.point);
  }

  lemma DriveKeyReply(c: Crypto, d: Device, h: Host, t: seq<Command>)
    requires Honest(c, d, h)
    ensures var point := Encode(c.mul(d.key, c.generator));
            var signature := Signature(c, d.cert, d.priv, h.nonce + point);
            signature.Some? && Reply(c, d, T3(h, t, d.agid)) == Some(KeyMessage(point, signature.value))
  {
    hide Reply, Signature, SignatureOk, CertOk, Encode;
    ReplyToKey(c, d, h, t);
    CertParts(h.nonce, h.cert);
    OwnSignatureVerifies(c, d.cert, d.priv, h.nonce + Encode(c.mul(d.key, c.generator)));
  }

  lemma DriveSigns(c: Crypto, d: Device, h: Host, t: seq<Command>)
    requires Honest(c, d, h)
    ensures SignedByDrive(c, HonestDrive(c, d), h, t, d.agid)
    ensures DrivePoint(HonestDrive(c, d)(T3(h, t, d.agid)).value) == Encode(c.mul(d.key, c.generator))
  {
    DriveIsCertified(c, d, h, t);
    DriveKeyReply(c, d, h, t);
    var point := Encode(c.mul(d.key, c.generator));
    OwnSignatureVerifies(c, d.cert, d.priv, h.nonce + point);
    KeyParts(point, Signature(c, d.cert, d.priv, h.nonce + point).value);
  }

  lemma HostSigns(c: Crypto, d: Device, h: Host, t: seq<Command>)
    requires Honest(c, d, h)
    ensures SignedByHost(c, HonestDrive(c, d), h, t, d.agid)
  {
    DriveIsCertified(c, d, h, t);
    DriveSigns(c, d, h, t);
    OwnSignatureVerifies(c, h.cert, h.priv, d.nonce + h.point);
    var signature := Signature(c, h.cert, h.priv, d.nonce + h.point).value;
    CertParts(h.nonce, h.cert);
    KeyParts(h.point, signature);
    Remembered(h, t, d.agid, signature);
    assert TakesKey(c, d, LastSent(T4(h, t, d.agid, signature), 1), KeyMessage(h.point, signature));
  }

  lemma ReplyParts(first: Block, second: Block)
    ensures var m := Zeros(4) + first + second; Payload(m) == first && Fit(m, 36)[20..36] == second
  {
  }

  // What is told under the bus key will do, and is the secret.
  lemma ToldWillDo(c: Crypto, d: Device, request: Request, busKey: Block)
    requires c.cipher.Lawful() && request != Unknown
    ensures Answers(c, busKey, Some(Told(c, d, request, busKey)), request)
    ensures AnswerIn(c, busKey, Told(c, d, request, busKey), request) == Secret(d, request)
  {
    ReplyParts(Secret(d, request), Cmac.AesCmac(c.cipher, busKey, Secret(d, request)));
    ReplyParts(c.cipher.enc(busKey, d.dataKey), Zeros(16));
  }

  lemma StructureReplied(c: Crypto, d: Device, h: Host, t: seq<Command>, signature: Bytes40, request: Request)
    requires d.agid < 4 && request != Unknown
    ensures Reply(c, d, T4(h, t, d.agid, signature) + [ReadStructure(d.agid, Format(request), 36)])
         == StructureReply(c, d, request, Some(KeyMessage(h.point, signature)))
  {
    Remembered(h, t, d.agid, signature);
  }

  // The bus key of any run in which the host's signature was taken.
  lemma SharedIsDrives(c: Crypto, d: Device, h: Host, stray: seq<Byte> -> Block, t: seq<Command>)
    requires Meets(c, d, h) && SignedByHost(c, HonestDrive(c, d), h, t, d.agid)
    ensures SharedKey(c, HonestDrive(c, d), h, t, d.agid, stray) == Low128(c.mul(d.key, c.mul(Value(h.key), c.generator)).x)
  {
    var point := Encode(c.mul(d.key, c.generator));
    ReplyToKey(c, d, h, t);
    CertParts(h.nonce, h.cert);
    var signature := Signature(c, d.cert, d.priv, h.nonce + point);
    assert Reply(c, d, T3(h, t, d.agid)) == Some(KeyMessage(point, signature.value));
    KeyParts(point, signature.value);
    SameBusKey(c, Value(h.key), d.key, h.key, stray);
  }

  lemma StructureReplyIs(c: Crypto, d: Device, h: Host, signature: Bytes40, request: Request)
    requires Meets(c, d, h)
    ensures StructureReply(c, d, request, Some(KeyMessage(h.point, signature)))
         == Some(Told(c, d, request, Low128(c.mul(d.key, c.mul(Value(h.key), c.generator)).x)))
  {
    var hv := c.mul(Value(h.key), c.generator);
    KeyParts(h.point, signature);
    PairKeeps(hv.x, hv.y);
  }

  // Once the host's signature is taken, every request is served.
  lemma DriveServes(c: Crypto, d: Device, h: Host, stray: seq<Byte> -> Block, t: seq<Command>, request: Request)
    requires Meets(c, d, h) && c.cipher.Lawful() && request != Unknown && SignedByHost(c, HonestDrive(c, d), h, t, d.agid)
    ensures Serves(c, HonestDrive(c, d), h, stray, t, d.agid, request)
    ensures forall before :: Buffer(c, HonestDrive(c, d), h, stray, t, d.agid, request, before) == Secret(d, request)
  {
    hide CertOk, SignatureOk, Told, Answers, AnswerIn, Reply, StructureReply, SharedKey;
    var signature := HostSignature(c, HonestDrive(c, d), h, t, d.agid).value;
    SharedIsDrives(c, d, h, stray, t);
    StructureReplied(c, d, h, t, signature, request);
    StructureReplyIs(c, d, h, signature, request);
    ToldWillDo(c, d, request, SharedKey(c, HonestDrive(c, d), h, t, d.agid, stray));
  }

  lemma DriveGrants(c: Crypto, d: Device, t0: seq<Command>)
    requires d.agid < 4
    ensures Granted(HonestDrive(c, d), t0) && Agid(HonestDrive(c, d), t0) == d.agid
  {
    var reply := Zeros(7) + [d.agid * 64];
    assert Reply(c, d, t0 + Prologue()) == Some(reply);
    assert Fit(reply, 8) == reply;
  }

  /** Whatever went before, an honest host with an honest drive is told what it
      asks for. */
  lemma HonestRun(c: Crypto, d: Device, h: Host, stray: seq<Byte> -> Block, t0: seq<Command>, request: Request, before: Block)
    requires Honest(c, d, h) && c.cipher.Lawful() && request != Unknown
    ensures RunCode(c, HonestDrive(c, d), h, stray, t0, request) == SUCCESS
    ensures RunBuffer(c, HonestDrive(c, d), h, stray, t0, request, before) == Secret(d, request)
  {
    DriveGrants(c, d, t0);
    HostSigns(c, d, h, t0 + Prologue());
    DriveServes(c, d, h, stray, t0 + Prologue(), request);
  }

  // Two drives that differ at most in what they reply to requests for structures.
  ghost predicate SameHandshake(drive: Drive, other: Drive) {
    forall t: seq<Command> :: t == [] || !t[|t| - 1].ReadStructure? ==> drive(t) == other(t)
  }

  lemma SameRun(c: Crypto, drive: Drive, other: Drive, h: Host, stray: seq<Byte> -> Block, t0: seq<Command>)
    requires SameHandshake(drive, other) && Granted(drive, t0) && SignedByHost(c, drive, h, t0 + Prologue(), Agid(drive, t0))
    ensures Granted(other, t0) && Agid(other, t0) == Agid(drive, t0)
    ensures var t, agid := t0 + Prologue(), Agid(drive, t0);
      && SignedByHost(c, other, h, t, agid)
      && Sent(c, other, h, t, agid) == Sent(c, drive, h, t, agid)
      && SharedKey(c, other, h, t, agid, stray) == SharedKey(c, drive, h, t, agid, stray)
  {
    hide CertOk, SignatureOk, Signature, BusKey, DriveNonce, DriveCert, DrivePoint, DriveSignature;
    var t, agid := t0 + Prologue(), Agid(drive, t0);
    assert drive(t) == other(t);
    assert drive(T1(h, t, agid)) == other(T1(h, t, agid)) && drive(T2(h, t, agid)) == other(T2(h, t, agid));
    assert drive(T3(h, t, agid)) == other(T3(h, t, agid));
    var signature := HostSignature(c, drive, h, t, agid).value;
    assert drive(T4(h, t, agid, signature)) == other(T4(h, t, agid, signature));
  }

  // One bit of the code is off.
  function Altered(reply: seq<Byte>): seq<Byte> {
    if |reply| > 20 then reply[20 := 255 - reply[20]] else reply
  }

  /** A drive that is honest, but alters the code of every structure. */
  function Liar(c: Crypto, d: Device): Drive
    requires d.agid < 4
  {
    (t: seq<Command>) =>
      var reply := Reply(c, d, t);
      if t != [] && t[|t| - 1].ReadStructure? && reply.Some? then Some(Altered(reply.value)) else reply
  }

  lemma AlteredMismatches(c: Crypto, d: Device, busKey: Block)
    ensures var reply := Altered(Told(c, d, VolumeId, busKey)); Payload(reply) == d.vid && !CodeMatches(c, busKey, reply)
  {
    var code := Cmac.AesCmac(c.cipher, busKey, d.vid);
    ReplyParts(d.vid, code);
    assert Told(c, d, VolumeId, busKey) == Zeros(4) + d.vid + code;
    AlteredParts(d.vid, code);
  }

  lemma AlteredParts(first: Block, second: Block)
    ensures var m := Altered(Zeros(4) + first + second); Payload(m) == first && Fit(m, 36)[20..36] != second
  {
    var m := Altered(Zeros(4) + first + second);
    assert Fit(m, 36)[20..36][0] == 255 - second[0];
  }

  // What an honest drive replies to the request for the volume ID.
  lemma HonestReplies(c: Crypto, d: Device, h: Host, stray: seq<Byte> -> Block, t: seq<Command>)
    requires Meets(c, d, h) && SignedByHost(c, HonestDrive(c, d), h, t, d.agid)
    ensures LastReply(c, HonestDrive(c, d), h, t, d.agid, VolumeId)
         == Some(Told(c, d, VolumeId, SharedKey(c, HonestDrive(c, d), h, t, d.agid, stray)))
  {
    hide CertOk, SignatureOk, Told, Reply, StructureReply, SharedKey;
    var signature := HostSignature(c, HonestDrive(c, d), h, t, d.agid).value;
    SharedIsDrives(c, d, h, stray, t);
    StructureReplied(c, d, h, t, signature, VolumeId);
    StructureReplyIs(c, d, h, signature, VolumeId);
  }

  lemma LiarReplies(c: Crypto, d: Device, h: Host, t: seq<Command>)
    requires d.agid < 4 && SignedByHost(c, HonestDrive(c, d), h, t, d.agid) && SignedByHost(c, Liar(c, d), h, t, d.agid)
    requires Sent(c, Liar(c, d), h, t, d.agid) == Sent(c, HonestDrive(c, d), h, t, d.agid)
    requires LastReply(c, HonestDrive(c, d), h, t, d.agid, VolumeId).Some?
    ensures LastReply(c, Liar(c, d), h, t, d.agid, VolumeId) ==
              Some(Altered(LastReply(c, HonestDrive(c, d), h, t, d.agid, VolumeId).value))
  {
    hide SignedByHost, Sent, Reply, Altered;
    var u := Sent(c, HonestDrive(c, d), h, t, d.agid) + [ReadStructure(d.agid, 0x80, 36)];
    assert u[|u| - 1] == ReadStructure(d.agid, 0x80, 36);
  }

  lemma LiarIsTheSame(c: Crypto, d: Device)
    requires d.agid < 4
    ensures SameHandshake(HonestDrive(c, d), Liar(c, d))
  {
    hide Reply;
  }

  /** So there are drives that send a mismatch, whatever volume ID they hold. */
  lemma LiarMismatches(c: Crypto, d: Device, h: Host, stray: seq<Byte> -> Block, t0: seq<Command>) returns (reply: seq<Byte>)
    requires Honest(c, d, h)
    ensures SendsMismatch(c, Liar(c, d), h, stray, t0, reply) && Payload(reply) == d.vid
  {
    var t := t0 + Prologue();
    HonestMeets(c, d, h);
    DriveGrants(c, d, t0);
    HostSigns(c, d, h, t);
    hide SignedByHost, Told, Altered, CodeMatches, Payload, Honest, SharedKey, LastReply, Sent, HonestDrive, Liar, Meets, SameHandshake;
    LiarIsTheSame(c, d);
    SameRun(c, HonestDrive(c, d), Liar(c, d), h, stray, t0);
    HonestReplies(c, d, h, stray, t);
    LiarReplies(c, d, h, t);
    var busKey := SharedKey(c, HonestDrive(c, d), h, t, d.agid, stray);
    reply := Altered(Told(c, d, VolumeId, busKey));
    AlteredMismatches(c, d, busKey);
  }

  lemma HonestMeets(c: Crypto, d: Device, h: Host)
    requires Honest(c, d, h)
    ensures Meets(c, d, h)
  {
  }

  /** The two together, in one call. */
  method ReadHonestly(mmc: Mmc, d: Device, priv: seq<Byte>, cert: Cert, request: Request, p: array<Byte>) returns (code: int)
    requires Honest(mmc.c, d, mmc.AsHost(priv, cert)) && mmc.c.cipher.Lawful() && request != Unknown
    requires mmc.drive == HonestDrive(mmc.c, d) && p.Length == 16
    modifies mmc, p
    ensures code == SUCCESS && p[..] == Secret(d, request)
  {
    HonestRun(mmc.c, d, mmc.AsHost(priv, cert), mmc.stray, mmc.trace, request, p[..]);
    code := mmc.ReadAuth(priv, cert, request, p);
  }

  // Whatever an honest drive tells is the secret.
  lemma TellsTruth(c: Crypto, d: Device, h: Host, stray: seq<Byte> -> Block, t0: seq<Command>, request: Request, before: Block)
    requires Meets(c, d, h) && c.cipher.Lawful()
    requires RunCode(c, HonestDrive(c, d), h, stray, t0, request) == SUCCESS
    ensures RunBuffer(c, HonestDrive(c, d), h, stray, t0, request, before) == Secret(d, request)
  {
    DriveGrants(c, d, t0);
    DriveServes(c, d, h, stray, t0 + Prologue(), request);
  }

  /** One certificate in the list that belongs to an honest host is enough,
      wherever it stands. */
  lemma {:induction false} HonestCertFound(c: Crypto, d: Device, stray: seq<Byte> -> Block, opening: Opening, hcl: seq<HostCert>, k: nat,
                                           request: Request, t: seq<Command>, code: int, p: Block)
    requires k < |hcl| && Honest(c, d, HostOf(c, opening, hcl[k])) && c.cipher.Lawful() && request != Unknown
    ensures TryCerts(c, HonestDrive(c, d), stray, opening, hcl, request, t, code, p) == (SUCCESS, Secret(d, request))
    decreases |hcl|
  {
    hide RunCode, RunBuffer, RunTrace, CertOk;
    var drive, h := HonestDrive(c, d), HostOf(c, opening, hcl[0]);
    var r, q := RunCode(c, drive, h, stray, t, request), RunBuffer(c, drive, h, stray, t, request, p);
    if k == 0 {
      HonestRun(c, d, h, stray, t, request, p);
    } else if !CertOk(c, hcl[0].cert, HOST_CERT) {
      HonestCertFound(c, d, stray, opening, hcl[1..], k - 1, request, t, code, p);
    } else if r == SUCCESS {
      TellsTruth(c, d, h, stray, t, request, p);
    } else {
      HonestCertFound(c, d, stray, opening, hcl[1..], k - 1, request, RunTrace(c, drive, h, t, request),
                      if r == CERT_REVOKED then REVOKED else MMC_FAILURE, q);
    }
  }
}
