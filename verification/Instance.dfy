/** A disc, a drive, a host and a unit for which everything that the result from
    end to end asks for holds. */
module Instance {
  import opened Bytes
  import opened Words
  import opened UnitCipher
  import opened UnitKey
  import opened KeyCache
  import opened Session
  import opened Waterfall
  import opened Disc
  import opened Playback
  import SubsetDifference
  import MediaKey
  import Mkb
  import Issue
  import Auth

  // ------------------------------------------------------------------
  // A published block, and the keys of a device

  const DEVICE: Word := Zero()[5 := true]

  // The subset of the tree without the node above 1.
  function OneSubset(): Issue.Subset {
    Issue.Subset(31, [0, 0, 0, 1])
  }

  function OneFrame(): Issue.Frame {
    Issue.Frame(Zeros(4), [0x80, 0, 0, 0, 1], Zeros(8), 4)
  }

  lemma WordOne()
    ensures FromNat(1) != Zero() && FromNat(1)[0] && VHeight(FromNat(1)) == 1
    ensures forall i :: 1 <= i < 32 ==> !FromNat(1)[i]
  {
    assert FromNat(1) == [true] + Zero()[..31];
    assert FromNat(1)[0] && !Zero()[0];
    assert IsVHeight(FromNat(1), VHeight(FromNat(1)));
  }

  lemma DeviceIsContained()
    ensures Issue.Proper(OneSubset()) && Issue.Contains(OneSubset(), DEVICE)
  {
    WordOne();
    assert BE32([0, 0, 0, 1], 0) == 1;
    assert DEVICE[5] && !FromNat(1)[5];
    assert !Words.Same(DEVICE, FromNat(1), 1);
  }

  lemma FrameIsValid()
    ensures OneFrame().Valid() && OneFrame().EndNumber() != Zero()
  {
    WordOne();
    assert BE32([0x80, 0, 0, 0, 1], 1) == 1;
  }

  lemma DeviceIsNotAll()
    ensures DEVICE != All()
  {
    assert !DEVICE[0] && All()[0];
  }

  ghost function Keys(c: BlockCipher, roots: SubsetDifference.Roots): (dkl: seq<SubsetDifference.DeviceKey>)
    ensures MediaKey.AllIssued(c, roots, dkl) && MediaKey.CompleteSets(dkl)
    ensures Issue.AnyContains([OneSubset()], dkl, MediaKey.Leading(dkl))
  {
    var dkl := SubsetDifference.Issue(c, roots, DEVICE);
    SubsetDifference.CompleteKeysExist(c, roots, DEVICE);
    KeysAreComplete(dkl);
    dkl
  }

  lemma KeysAreComplete(dkl: seq<SubsetDifference.DeviceKey>)
    requires SubsetDifference.Complete(dkl, DEVICE) && forall e :: e in dkl ==> e.node == DEVICE
    ensures MediaKey.CompleteSets(dkl) && Issue.AnyContains([OneSubset()], dkl, MediaKey.Leading(dkl))
  {
    assert SubsetDifference.HasKeyFor(dkl, DEVICE, 2, 1);
    DeviceIsNotAll();
    assert MediaKey.Leading(dkl) == 0 && dkl[0..] == dkl;
    DeviceIsContained();
    assert Issue.Contains([OneSubset()][0], DEVICE) && Issue.InAny([OneSubset()], dkl[0].node);
  }

  ghost function BlockFile(c: BlockCipher, roots: SubsetDifference.Roots, mediaKey: Block): (file: seq<Byte>)
    ensures Issue.IssuedBlock(c, roots, [OneSubset()], mediaKey, OneFrame(), file)
  {
    DeviceIsContained();
    FrameIsValid();
    Mkb.Encode(Issue.Records(c, roots, [OneSubset()], mediaKey, OneFrame())) + Zeros(OneFrame().pad)
  }

  // ------------------------------------------------------------------
  // A unit key file with one key, and a stream

  function KeyFile(): seq<Byte> {
    Print([ZeroBlock()], 1, 1, [], KEY_STRIDE, 2048)
  }

  lemma KeyFileIsUsable()
    ensures Usable(KeyFile(), 0) && Inside(KeyFile(), false) && Stride(KeyFile(), false) == KEY_STRIDE
    ensures KeyCount(KeyFile()) == 1 && KeyPos(KeyFile()) + 48 + 16 <= |KeyFile()|
  {
    PrintedFile([ZeroBlock()], 1, 1, [], KEY_STRIDE, 2048, KeyFile());
    LongFile();
  }

  lemma LongFile()
    ensures |KeyFile()| > 2048
  {
    hide KeyEntries, TitleEntries, Head, Put16;
  }

  function Stream(): Unit {
    seq(UNIT_LEN, i => 0x47)
  }

  lemma {:induction false} AllSynced(n: nat)
    requires n <= PACKETS
    ensures FirstUnsynced(Stream(), n) == PACKETS
    decreases PACKETS - n
  {
    if n < PACKETS {
      AllSynced(n + 1);
    }
  }

  lemma EmptyIsBlank()
    ensures Empty(ZeroBlock())
  {
  }

  // ------------------------------------------------------------------
  // All of it together

  ghost function OneTruth(d: Auth.Device): Truth {
    Truth(ZeroBlock(), d.vid, (h: nat, n: Word) => ZeroBlock(), 1)
  }

  ghost function OneOpening(h: Auth.Host): Auth.Opening {
    Auth.Opening(h.nonce, h.key, [])
  }

  ghost function OneWorld(c: Auth.Crypto, d: Auth.Device, h: Auth.Host): World
    requires d.agid < 4
  {
    World(c, false, [], BlockFile(c.cipher, OneTruth(d).roots, ZeroBlock()), [], Keys(c.cipher, OneTruth(d).roots), [],
          Some(Auth.HonestDrive(c, d)), (s: seq<Byte>) => ZeroBlock(), OneOpening(h), [Auth.HostCert(h.priv, h.cert)],
          (data, signature) => false, (i: nat) => None)
  }

  ghost function OneBus(h: Auth.Host): Bus {
    Bus(true, 1, OneOpening(h), "rdk")
  }

  ghost function Recorded(c: Auth.Crypto, d: Auth.Device, h: Auth.Host): Unit
    requires d.agid < 4
  {
    KeyFileIsUsable();
    SealBus(c.cipher, d.dataKey, SealUnit(c.cipher, TrueKey(OneWorld(c, d, h), OneTruth(d), KeyFile(), KEY_STRIDE, 0), Stream()))
  }

  lemma WorldIsPublished(c: Auth.Crypto, d: Auth.Device, h: Auth.Host)
    requires Auth.Honest(c, d, h) && c.cipher.Lawful()
    ensures var x := Issued([OneSubset()], OneFrame());
      Published(OneWorld(c, d, h), OneTruth(d), x) && |x.f.rest| == 8 && Entitled(OneWorld(c, d, h), OneTruth(d), x)
  {
    hide Keys, BlockFile, Issue.IssuedBlock, Issue.AnyContains, MediaKey.AllIssued, MediaKey.CompleteSets;
    FrameIsValid();
  }

  lemma WorldIsAttended(c: Auth.Crypto, d: Auth.Device, h: Auth.Host)
    requires Auth.Honest(c, d, h)
    ensures Attended(OneWorld(c, d, h), OneTruth(d), OneBus(h), d)
  {
    hide Auth.HonestDrive, BlockFile, Keys;
    var w := OneWorld(c, d, h);
    assert Auth.HostOf(c, OneOpening(h), w.hcl[0]) == h;
  }

  lemma UnitIsBurnt(c: Auth.Crypto, d: Auth.Device, h: Auth.Host)
    requires d.agid < 4 && c.cipher.Lawful()
    ensures Burnt(OneWorld(c, d, h), OneTruth(d), OneBus(h), d.dataKey, KeyFile(), [], false, 0, Stream(), Recorded(c, d, h))
  {
    hide KeyFile, SealBus, SealUnit, OneTruth, TrueKey, Usable, Inside, Stride, SealedOnDisc, BlockFile, Keys, Auth.HonestDrive;
    KeyFileIsUsable();
    StreamIsSealed(OneWorld(c, d, h), OneTruth(d), d.dataKey);
    NothingInside();
  }

  lemma NothingInside()
    ensures Inside([], false)
  {
  }

  lemma StreamIsSealed(w: World, t: Truth, dataKey: Block)
    requires w.Cipher().Lawful()
    ensures Usable(KeyFile(), 0) && KeyCount(KeyFile()) == 1 && KeyPos(KeyFile()) + 48 + 16 <= |KeyFile()|
    ensures SealedOnDisc(w, t, dataKey, KeyFile(), KEY_STRIDE, 0, Stream(),
                         SealBus(w.Cipher(), dataKey, SealUnit(w.Cipher(), TrueKey(w, t, KeyFile(), KEY_STRIDE, 0), Stream())))
  {
    KeyFileIsUsable();
    AllSynced(0);
    hide KeyFile, SealBus, SealUnit, TrueKey, Usable, FirstUnsynced;
  }

  // All that the result from end to end asks for.
  ghost predicate Holds(c: Auth.Crypto, d: Auth.Device, h: Auth.Host)
    requires d.agid < 4
  {
    && Ready(OneWorld(c, d, h), OneTruth(d), Issued([OneSubset()], OneFrame()), OneBus(h), d, map[], Some([]))
    && Burnt(OneWorld(c, d, h), OneTruth(d), OneBus(h), d.dataKey, KeyFile(), [], false, 0, Stream(), Recorded(c, d, h))
  }

  /** Every honest pair of host and drive, with a lawful cipher, has such a disc
      and such a unit. */
  lemma HonestPairPlays(c: Auth.Crypto, d: Auth.Device, h: Auth.Host)
    requires Auth.Honest(c, d, h) && c.cipher.Lawful()
    ensures Holds(c, d, h)
  {
    WorldIsPublished(c, d, h);
    WorldIsAttended(c, d, h);
    UnitIsBurnt(c, d, h);
    hide Published, Entitled, Attended, Harmless, TrueCache, OneWorld, OneTruth, OneBus, Burnt, Recorded, Auth.Honest;
    NothingElse(c, d, h);
  }

  /** So there are a disc, a drive, a host and a unit for which all of it holds. */
  lemma ReadyExists()
    ensures exists c: Auth.Crypto, d: Auth.Device, h: Auth.Host :: d.agid < 4 && Holds(c, d, h)
  {
    hide Auth.Honest, Holds;
    Auth.HonestPairExists();
    var c, d, h :| Auth.Honest(c, d, h) && c.cipher.Lawful();
    Auth.HonestMeets(c, d, h);
    HonestPairPlays(c, d, h);
  }

  lemma NothingElse(c: Auth.Crypto, d: Auth.Device, h: Auth.Host)
    requires d.agid < 4
    ensures Harmless(OneWorld(c, d, h), OneTruth(d), Some([])) && TrueCache(OneWorld(c, d, h), OneTruth(d), map[])
  {
    EmptyIsBlank();
    hide OneWorld, TrueVuk;
  }
}
