/** The subset-difference tree: key labels, device keys and the derivation of
    a processing key (section 3.2 of "AACS Introduction and Common
    Cryptographic Elements"; aacs.c and the triple generator of crypto.c).

    A node of the tree of device numbers is a height h and the bits above the
    h low ones.  A number uv names a node v (just above its lowest set bit) and,
    with a height uh given beside it, the node u above it.  The subset S(u, v)
    holds the devices below u but not below v. */
module SubsetDifference {
  import opened Bytes
  import opened Words

  // ------------------------------------------------------------------
  // Labels

  function Seed(inc: nat): Block
    requires inc < 3
  {
    [0x7B, 0x10, 0x3C, 0x5D, 0xCB, 0x08, 0xC4, 0xE5, 0x1A, 0x27, 0xB0, 0x17, 0x99, 0x05, 0x3B, 0xD9 + inc]
  }

  // _aesg3: one of the three keys generated from a label.
  function Aesg3(c: BlockCipher, key: Block, inc: nat): Block
    requires inc < 3
  {
    Xor(c.dec(key, Seed(inc)), Seed(inc))
  }

  function LeftLabel(c: BlockCipher, root: Block): Block { Aesg3(c, root, 0) }
  function ProcessingKey(c: BlockCipher, root: Block): Block { Aesg3(c, root, 1) }
  function RightLabel(c: BlockCipher, root: Block): Block { Aesg3(c, root, 2) }

  /** A key that a label generates: encrypting, under the label, the key combined
      with the constant that ends in the given byte gives that constant. */
  ghost predicate Generates(c: BlockCipher, root: Block, key: Block, last: Byte) {
    var constant: Block := [0x7B, 0x10, 0x3C, 0x5D, 0xCB, 0x08, 0xC4, 0xE5, 0x1A, 0x27, 0xB0, 0x17, 0x99, 0x05, 0x3B, last];
    c.enc(root, Xor(key, constant)) == constant
  }

  /** The three generated keys: the left label with D9, the processing key with DA
      in the middle, and the right label with DB. */
  lemma GeneratedKeys(c: BlockCipher, root: Block)
    requires c.Lawful()
    ensures Generates(c, root, LeftLabel(c, root), 0xD9)
    ensures Generates(c, root, ProcessingKey(c, root), 0xDA)
    ensures Generates(c, root, RightLabel(c, root), 0xDB)
  {
    forall inc: nat | inc < 3
      ensures Generates(c, root, Aesg3(c, root, inc), 0xD9 + inc)
    {
      XorCancel(c.dec(root, Seed(inc)), Seed(inc));
    }
  }

  /** And nothing else is. */
  lemma GeneratedOnly(c: BlockCipher, root: Block, key: Block, other: Block, last: Byte)
    requires c.Lawful() && Generates(c, root, key, last) && Generates(c, root, other, last)
    ensures key == other
  {
    var constant: Block := [0x7B, 0x10, 0x3C, 0x5D, 0xCB, 0x08, 0xC4, 0xE5, 0x1A, 0x27, 0xB0, 0x17, 0x99, 0x05, 0x3B, last];
    assert Xor(key, constant) == c.dec(root, constant) == Xor(other, constant);
    XorCancel(key, constant);
    XorCancel(other, constant);
  }

  /** _aesg3 */
  method AesG3(c: BlockCipher, srcKey: Block, dstKey: array<Byte>, inc: nat)
    requires dstKey.Length == 16 && inc < 3
    modifies dstKey
    ensures dstKey[..] == Aesg3(c, srcKey, inc)
    ensures c.Lawful() ==> Generates(c, srcKey, dstKey[..], 0xD9 + inc)
  {
    var seed := new Byte[16] [0x7B, 0x10, 0x3C, 0x5D, 0xCB, 0x08, 0xC4, 0xE5, 0x1A, 0x27, 0xB0, 0x17, 0x99, 0x05, 0x3B, 0xD9];
    seed[15] := seed[15] + inc;
    assert seed[..] == Seed(inc);
    var d := c.dec(srcKey, seed[..]);
    Store(dstKey, d);
    for a := 0 to 16
      invariant seed[..] == Seed(inc)
      invariant forall i :: 0 <= i < 16 ==> dstKey[i] == if i < a then XorByte(d[i], Seed(inc)[i]) else d[i]
    {
      dstKey[a] := XorByte(dstKey[a], seed[a]);
    }
    assert dstKey[..] == Aesg3(c, srcKey, inc);
    if c.Lawful() {
      XorCancel(d, Seed(inc));
    }
  }

  /** crypto_aesg3 */
  method GenerateKeys(c: BlockCipher, root: Block, left: array<Byte>, right: array<Byte>, pk: array<Byte>)
    requires left.Length == right.Length == pk.Length == 16 && left != right && left != pk && right != pk
    modifies left, right, pk
    ensures left[..] == LeftLabel(c, root) && right[..] == RightLabel(c, root) && pk[..] == ProcessingKey(c, root)
    ensures c.Lawful() ==> Generates(c, root, left[..], 0xD9) && Generates(c, root, pk[..], 0xDA) && Generates(c, root, right[..], 0xDB)
  {
    AesG3(c, root, left, 0);
    AesG3(c, root, pk, 1);
    AesG3(c, root, right, 2);
  }

  function Child(c: BlockCipher, root: Block, right: bool): Block {
    if right then RightLabel(c, root) else LeftLabel(c, root)
  }

  /** The label found by walking from a label at height `from` down the path
      of uv to height `to`. */
  ghost function Descend(c: BlockCipher, root: Block, uv: Word, from: nat, to: nat): Block
    requires to <= from <= 32
    decreases from
  {
    if from == to then root
    else Descend(c, Child(c, root, uv[from - 1]), uv, from - 1, to)
  }

  /** Walking in two stages is walking at once; this is why any stored label on
      the way serves. */
  lemma {:induction false} DescendInStages(c: BlockCipher, root: Block, uv: Word, from: nat, mid: nat, to: nat)
    requires to <= mid <= from <= 32
    ensures Descend(c, root, uv, from, to) == Descend(c, Descend(c, root, uv, from, mid), uv, mid, to)
    decreases from
  {
    if from != mid {
      DescendInStages(c, Child(c, root, uv[from - 1]), uv, from - 1, mid, to);
    }
  }

  /** The way of a processing key, told by encryption: from the label at height
      `from` down the path of the number uv, a right child where its bit is one, to
      height `to`, and there the key in the middle. */
  ghost predicate OnPath(c: BlockCipher, root: Block, uv: nat, from: nat, to: nat, pk: Block)
    requires to <= from
    decreases from
  {
    if from == to then Generates(c, root, pk, 0xDA)
    else exists child: Block :: Branches(c, root, child, uv, from) && OnPath(c, child, uv, from - 1, to, pk)
  }

  ghost predicate Branches(c: BlockCipher, root: Block, child: Block, uv: nat, from: nat)
    requires from > 0
  {
    if uv / Pow2(from - 1) % 2 == 1 then Generates(c, root, child, 0xDB) else Generates(c, root, child, 0xD9)
  }

  /** The processing key of the label that the walk finds is on its path ... */
  lemma {:induction false} DescendsOnPath(c: BlockCipher, root: Block, uv: nat, from: nat, to: nat)
    requires c.Lawful() && to <= from <= 32
    ensures OnPath(c, root, uv, from, to, ProcessingKey(c, Descend(c, root, FromNat(uv), from, to)))
    decreases from
  {
    GeneratedKeys(c, root);
    if from != to {
      BitOfNat(uv, from - 1);
      hide Generates, FromNat, LeftLabel, RightLabel, ProcessingKey;
      var child := Child(c, root, FromNat(uv)[from - 1]);
      DescendsOnPath(c, child, uv, from - 1, to);
      assert Branches(c, root, child, uv, from);
    }
  }

  /** ... and the only key there. */
  lemma {:induction false} OneOnPath(c: BlockCipher, root: Block, uv: nat, from: nat, to: nat, pk: Block, other: Block)
    requires c.Lawful() && to <= from && OnPath(c, root, uv, from, to, pk) && OnPath(c, root, uv, from, to, other)
    ensures pk == other
    decreases from
  {
    hide Generates;
    if from == to {
      GeneratedOnly(c, root, pk, other, 0xDA);
    } else {
      var last: Byte := if uv / Pow2(from - 1) % 2 == 1 then 0xDB else 0xD9;
      var x: Block :| Branches(c, root, x, uv, from) && OnPath(c, x, uv, from - 1, to, pk);
      var y: Block :| Branches(c, root, y, uv, from) && OnPath(c, y, uv, from - 1, to, other);
      GeneratedOnly(c, root, x, y, last);
      OneOnPath(c, x, uv, from - 1, to, pk, other);
    }
  }

  // Only the bits of uv that are walked over matter.
  lemma {:induction false} DescendAlong(c: BlockCipher, root: Block, x: Word, y: Word, from: nat, to: nat)
    requires to <= from <= 32 && Same(x, y, to)
    ensures Descend(c, root, x, from, to) == Descend(c, root, y, from, to)
    decreases from
  {
    if from != to {
      DescendAlong(c, Child(c, root, x[from - 1]), x, y, from - 1, to);
    }
  }

  // The licensing authority's secret: a random label for the root of every
  // subtree, by height and node.
  type Roots = (nat, Word) -> Block

  /** Label(u, v): from the root label of u down to v. */
  ghost function Label(c: BlockCipher, roots: Roots, uh: nat, uv: Word, vh: nat): Block
    requires vh <= uh <= 32
  {
    Descend(c, roots(uh, And(uv, Mask(uh))), uv, uh, vh)
  }

  /** The key of the subset S(u, v). */
  ghost function SubsetKey(c: BlockCipher, roots: Roots, uh: nat, uv: Word): Block
    requires uv != Zero() && VHeight(uv) <= uh <= 32
  {
    ProcessingKey(c, Label(c, roots, uh, uv, VHeight(uv)))
  }

  /** It is the key that the authority finds, by encryption, on the path from the
      root label of u to v. */
  lemma SubsetKeyOnPath(c: BlockCipher, roots: Roots, uh: nat, n: nat)
    requires c.Lawful() && FromNat(n) != Zero() && VHeight(FromNat(n)) <= uh <= 32
    ensures OnPath(c, roots(uh, And(FromNat(n), Mask(uh))), n, uh, VHeight(FromNat(n)), SubsetKey(c, roots, uh, FromNat(n)))
  {
    DescendsOnPath(c, roots(uh, And(FromNat(n), Mask(uh))), n, uh, VHeight(FromNat(n)));
  }

  ghost predicate InSubset(device: Word, uh: nat, uv: Word)
    requires uv != Zero()
  {
    Same(device, uv, uh) && !Same(device, uv, VHeight(uv))
  }

  lemma InSubsetHeights(device: Word, uh: nat, uv: Word)
    requires uv != Zero() && InSubset(device, uh, uv)
    ensures VHeight(uv) < uh
  {
  }

  // ------------------------------------------------------------------
  // Device keys

  // dk_list entries; the list is a sequence.
  datatype DeviceKey = DeviceKey(key: Block, node: Word, uv: Word, uMaskShift: Byte)

  /** An entry that was issued to its device: v lies strictly below u, hangs
      off the path from u to the device, and the key is the label of (u, v).
      Entries without a node are permitted; the search skips them. */
  ghost predicate Issued(c: BlockCipher, roots: Roots, e: DeviceKey) {
    e.uv != Zero() ==>
      var vh := VHeight(e.uv);
      && vh < e.uMaskShift <= 31
      && Parts(e.uv, e.node, vh)
      && e.key == Label(c, roots, e.uMaskShift, e.uv, vh)
  }

  // An entry of the device for the subtree of height uh, hanging off at vh.
  ghost predicate IsKeyFor(e: DeviceKey, device: Word, uh: nat, vh: nat) {
    e.node == device && e.uv != Zero() && e.uMaskShift == uh && VHeight(e.uv) == vh
  }

  ghost predicate HasKeyFor(dkl: seq<DeviceKey>, device: Word, uh: nat, vh: nat) {
    exists i :: 0 <= i < |dkl| && IsKeyFor(dkl[i], device, uh, vh)
  }

  /** The entries of a device are complete: one for every subtree it is in and
      every node hanging off its path there. */
  ghost predicate Complete(dkl: seq<DeviceKey>, device: Word) {
    forall uh: nat, vh: nat :: 1 <= vh < uh <= 31 ==> HasKeyFor(dkl, device, uh, vh)
  }

  /** The number whose v is the sibling, at height h, on the path of a device. */
  ghost function SiblingNumber(device: Word, h: nat): Word
    requires 1 <= h <= 31
  {
    seq(32, i requires 0 <= i < 32 => if i < h then i == h - 1 else (i == h) != device[i])
  }

  // The key of a device for the subtree of height uh and the sibling at
  // height vh; for other pairs, an entry without a node.
  ghost function IssuedKey(c: BlockCipher, roots: Roots, device: Word, uh: nat, vh: nat): (e: DeviceKey)
    ensures e.node == device && Issued(c, roots, e)
    ensures 1 <= vh < uh <= 31 ==> IsKeyFor(e, device, uh, vh)
  {
    if 1 <= vh < uh <= 31 then
      var uv := SiblingNumber(device, vh);
      assert uv[vh - 1] && !Zero()[vh - 1] && IsVHeight(uv, vh);
      DeviceKey(Label(c, roots, uh, uv, vh), device, uv, uh)
    else DeviceKey(ZeroBlock(), device, Zero(), 0)
  }

  ghost function Issue(c: BlockCipher, roots: Roots, device: Word): seq<DeviceKey> {
    seq(1024, k requires 0 <= k < 1024 => IssuedKey(c, roots, device, k / 32, k % 32))
  }

  /** Every device can be given complete, properly issued keys. */
  lemma CompleteKeysExist(c: BlockCipher, roots: Roots, device: Word)
    ensures Complete(Issue(c, roots, device), device)
    ensures forall e :: e in Issue(c, roots, device) ==> e.node == device && Issued(c, roots, e)
  {
    var dkl := Issue(c, roots, device);
    forall uh: nat, vh: nat | 1 <= vh < uh <= 31
      ensures HasKeyFor(dkl, device, uh, vh)
    {
      var k := uh * 32 + vh;
      assert k / 32 == uh && k % 32 == vh;
      assert IsKeyFor(dkl[k], device, uh, vh);
    }
  }

  // The test by which the search accepts an entry.
  ghost predicate Applies(e: DeviceKey, device: Word, uv: Word, uh: nat)
  {
    && e.node == device
    && e.uv != Zero()
    && e.uMaskShift == uh
    && Same(uv, e.uv, VHeight(e.uv))
  }

  /** Every issued key that the search can accept for a subset with the device
      in it hangs off at the height where uv and the device number part; so its
      node is v or an ancestor of v, and all such keys are equal. */
  lemma ApplyingKey(c: BlockCipher, roots: Roots, e: DeviceKey, device: Word, uh: nat, uv: Word, h: nat)
    requires uv != Zero() && uh <= 31 && InSubset(device, uh, uv)
    requires h < 32 && Parts(uv, device, h)
    requires Issued(c, roots, e) && Applies(e, device, uv, uh)
    ensures VHeight(uv) <= h < uh
    ensures VHeight(e.uv) == h
    ensures e.key == Label(c, roots, uh, uv, h)
  {
    var vh := VHeight(e.uv);
    assert uv[vh] != device[vh] && Same(uv, device, vh + 1);
    InSubsetHeights(device, uh, uv);
    SameIsMasked(uv, e.uv, uh);
    DescendAlong(c, roots(uh, And(uv, Mask(uh))), uv, e.uv, uh, h);
  }

  /** And a complete device has one. */
  lemma HasApplyingKey(c: BlockCipher, roots: Roots, dkl: seq<DeviceKey>, device: Word, uh: nat, uv: Word) returns (i: nat)
    requires uv != Zero() && uh <= 31 && InSubset(device, uh, uv)
    requires Complete(dkl, device)
    requires forall j :: 0 <= j < |dkl| ==> Issued(c, roots, dkl[j])
    ensures i < |dkl| && Applies(dkl[i], device, uv, uh)
  {
    var vh := VHeight(uv);
    InSubsetHeights(device, uh, uv);
    var h := PartSomewhere(uv, device, vh, uh);
    assert HasKeyFor(dkl, device, uh, h);
    i :| 0 <= i < |dkl| && IsKeyFor(dkl[i], device, uh, h);
    assert Parts(dkl[i].uv, device, h);
    assert Same(uv, dkl[i].uv, h);
  }

  // The first accepted entry from index i on.
  ghost function FirstApplying(dkl: seq<DeviceKey>, device: Word, uv: Word, uh: nat, i: nat): (k: nat)
    requires i <= |dkl|
    ensures i <= k <= |dkl|
    ensures k < |dkl| ==> Applies(dkl[k], device, uv, uh)
    ensures forall j :: i <= j < k ==> !Applies(dkl[j], device, uv, uh)
    decreases |dkl| - i
  {
    if i == |dkl| || Applies(dkl[i], device, uv, uh) then i
    else FirstApplying(dkl, device, uv, uh, i + 1)
  }

  /** _find_dk on the entries from `start` on, for the device of the first of
      them.  The shift of the source is undefined for larger amounts. */
  method FindDk(dkl: seq<DeviceKey>, start: nat, uv: Word, uMask: Word, ghost uh: nat)
    returns (i: nat, devKeyVMask: Word)
    requires start < |dkl| && uh <= 31 && uMask == Mask(uh)
    requires forall j :: 0 <= j < |dkl| && dkl[j].uv != Zero() ==> dkl[j].uMaskShift <= 31
    ensures i == FirstApplying(dkl, dkl[start].node, uv, uh, start)
    ensures i < |dkl| ==> devKeyVMask == Mask(VHeight(dkl[i].uv))
  {
    var deviceNumber := dkl[start].node;
    devKeyVMask := Zero();
    i := start;
    while i < |dkl|
      invariant start <= i <= |dkl|
      invariant FirstApplying(dkl, deviceNumber, uv, uh, start) == FirstApplying(dkl, deviceNumber, uv, uh, i)
    {
      var e := dkl[i];
      if deviceNumber == e.node && e.uv != Zero() {
        var devKeyUMask := ShiftLeft(All(), e.uMaskShift);
        var vMask := CalcVMask(e.uv);
        MaskIsShift(e.uMaskShift);
        MaskInjective(uh, e.uMaskShift);
        SameIsMasked(uv, e.uv, VHeight(e.uv));
        if uMask == devKeyUMask && And(uv, vMask) == And(e.uv, vMask) {
          return i, vMask;
        }
      }
      i := i + 1;
    }
  }

  // ------------------------------------------------------------------
  // The walk from the device key to the processing key

  // One move of the walk's mask, and n of them.
  ghost function MaskAfter(m: Word, n: nat): Word
    decreases n
  {
    if n == 0 then m else MaskAfter(ShiftRightSigned(m), n - 1)
  }

  lemma {:induction false} MaskAfterSteps(h: nat, n: nat)
    requires h < 32
    ensures MaskAfter(Mask(h), n) == Mask(if n <= h then h - n else 0)
    decreases n
  {
    if n > 0 {
      if h == 0 {
        assert ShiftRightSigned(Mask(0)) == Mask(0);
        MaskAfterSteps(0, n - 1);
      } else {
        MaskDown(h);
        MaskAfterSteps(h - 1, n - 1);
      }
    }
  }

  /** The walk from a key mask below the word's top ends if and only if the
      key's node is v or an ancestor of v. */
  lemma WalkEnds(kh: nat, vh: nat)
    requires kh < 32 && vh <= 32
    ensures (exists n :: MaskAfter(Mask(kh), n) == Mask(vh)) <==> vh <= kh
  {
    if vh <= kh {
      MaskAfterSteps(kh, kh - vh);
      assert MaskAfter(Mask(kh), kh - vh) == Mask(vh);
    } else {
      forall n: nat
        ensures MaskAfter(Mask(kh), n) != Mask(vh)
      {
        MaskAfterSteps(kh, n);
        MaskInjective(if n <= kh then kh - n else 0, vh);
      }
    }
  }

  // The highest zero bit, plus one; 0 if there is none.
  method HighestZero(m: Word, ghost h: nat) returns (i: nat)
    requires h <= 32 && m == Mask(h)
    ensures i == h
  {
    i := 32;
    while i > 0
      invariant h <= i <= 32
    {
      if !m[i - 1] {
        break;
      }
      i := i - 1;
    }
  }

  /** _calc_pk.  The processing key is that of the label at v, reached in
      exactly as many steps as v lies below the key's node: the one that is found on
      the path of the number. */
  method CalcPk(c: BlockCipher, dk: Block, pk: array<Byte>, uv: Word, vMask: Word, devKeyVMask: Word,
                ghost kh: nat, ghost vh: nat) returns (ghost steps: nat)
    requires pk.Length == 16
    requires vh <= kh <= 31 && devKeyVMask == Mask(kh) && vMask == Mask(vh)
    modifies pk
    ensures pk[..] == ProcessingKey(c, Descend(c, dk, uv, kh, vh))
    ensures c.Lawful() ==> forall n: nat :: uv == FromNat(n) ==> OnPath(c, dk, n, kh, vh, pk[..])
    ensures steps == kh - vh
  {
    hide LeftLabel, RightLabel, ProcessingKey, Generates, OnPath, FromNat;
    var leftChild, rightChild := new Byte[16], new Byte[16];
    GenerateKeys(c, dk, leftChild, rightChild, pk);
    var mask := devKeyVMask;
    ghost var cur := dk;
    ghost var h := kh;
    steps := 0;
    MaskInjective(h, vh);
    while mask != vMask
      invariant vh <= h <= kh && steps == kh - h
      invariant mask == Mask(h)
      invariant mask == vMask <==> h == vh
      invariant leftChild[..] == LeftLabel(c, cur) && rightChild[..] == RightLabel(c, cur)
      invariant pk[..] == ProcessingKey(c, cur)
      invariant Descend(c, dk, uv, kh, vh) == Descend(c, cur, uv, h, vh)
      decreases h
    {
      TurnDown(c, uv, mask, h, cur, leftChild, rightChild, pk);
      MaskDown(h);
      mask := ShiftRightSigned(mask);
      cur := Child(c, cur, uv[h - 1]);
      h := h - 1;
      steps := steps + 1;
      MaskInjective(h, vh);
    }
    OnEveryPath(c, dk, uv, kh, vh);
  }

  // One turn of the walk: the bit below the mask says which child it takes.
  method TurnDown(c: BlockCipher, uv: Word, mask: Word, ghost h: nat, ghost cur: Block,
                  leftChild: array<Byte>, rightChild: array<Byte>, pk: array<Byte>)
    requires leftChild.Length == rightChild.Length == pk.Length == 16 && leftChild != rightChild && leftChild != pk && rightChild != pk
    requires 0 < h <= 32 && mask == Mask(h) && leftChild[..] == LeftLabel(c, cur) && rightChild[..] == RightLabel(c, cur)
    modifies leftChild, rightChild, pk
    ensures var child := Child(c, cur, uv[h - 1]);
            leftChild[..] == LeftLabel(c, child) && rightChild[..] == RightLabel(c, child) && pk[..] == ProcessingKey(c, child)
  {
    hide LeftLabel, RightLabel, ProcessingKey, Generates;
    var i := HighestZero(mask, h);
    var currKey: Block := if i == 0 || !uv[i - 1] then leftChild[..] else rightChild[..];
    GenerateKeys(c, currKey, leftChild, rightChild, pk);
  }

  lemma OnEveryPath(c: BlockCipher, root: Block, uv: Word, from: nat, to: nat)
    requires to <= from <= 32
    ensures c.Lawful() ==> forall n: nat :: uv == FromNat(n) ==> OnPath(c, root, n, from, to, ProcessingKey(c, Descend(c, root, uv, from, to)))
  {
    forall n: nat | c.Lawful() && uv == FromNat(n)
      ensures OnPath(c, root, n, from, to, ProcessingKey(c, Descend(c, root, uv, from, to)))
    {
      DescendsOnPath(c, root, n, from, to);
    }
  }

  method Store(a: array<Byte>, b: Block)
    requires a.Length == 16
    modifies a
    ensures a[..] == b
  {
    forall i | 0 <= i < 16 {
      a[i] := b[i];
    }
  }

  /** Two devices in the same subset, starting from different stored keys at
      different heights, derive the same processing key. */
  lemma SameProcessingKey(c: BlockCipher, roots: Roots, uh: nat, uv: Word,
                          d1: Word, e1: DeviceKey, d2: Word, e2: DeviceKey)
    requires uv != Zero() && uh <= 31 && InSubset(d1, uh, uv) && InSubset(d2, uh, uv)
    requires Issued(c, roots, e1) && Applies(e1, d1, uv, uh)
    requires Issued(c, roots, e2) && Applies(e2, d2, uv, uh)
    ensures VHeight(uv) <= VHeight(e1.uv) < uh && VHeight(uv) <= VHeight(e2.uv) < uh
    ensures ProcessingKey(c, Descend(c, e1.key, uv, VHeight(e1.uv), VHeight(uv))) == SubsetKey(c, roots, uh, uv)
    ensures ProcessingKey(c, Descend(c, e1.key, uv, VHeight(e1.uv), VHeight(uv)))
         == ProcessingKey(c, Descend(c, e2.key, uv, VHeight(e2.uv), VHeight(uv)))
  {
    DerivesSubsetKey(c, roots, uh, uv, d1, e1);
    DerivesSubsetKey(c, roots, uh, uv, d2, e2);
  }

  lemma DerivesSubsetKey(c: BlockCipher, roots: Roots, uh: nat, uv: Word, device: Word, e: DeviceKey)
    requires uv != Zero() && uh <= 31 && InSubset(device, uh, uv)
    requires Issued(c, roots, e) && Applies(e, device, uv, uh)
    ensures VHeight(uv) <= VHeight(e.uv) < uh
    ensures ProcessingKey(c, Descend(c, e.key, uv, VHeight(e.uv), VHeight(uv))) == SubsetKey(c, roots, uh, uv)
  {
    var vh := VHeight(uv);
    InSubsetHeights(device, uh, uv);
    var h := PartSomewhere(uv, device, vh, uh);
    ApplyingKey(c, roots, e, device, uh, uv, h);
    DescendInStages(c, roots(uh, And(uv, Mask(uh))), uv, uh, h, vh);
  }
}
