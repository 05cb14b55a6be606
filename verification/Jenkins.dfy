/** HASH_JEN, the hash function uthash.h uses unless told otherwise, on 32-bit words. */
module Jenkins {

  /** The words _hj_i, _hj_j and hashv. */
  datatype State = State(i: bv32, j: bv32, h: bv32)

  // ---------------------------------------------------------------- operations on words

  function Plus(x: bv32, y: bv32): bv32 { x + y }

  function Minus(x: bv32, y: bv32): bv32 { x - y }

  function Xor(x: bv32, y: bv32): bv32 { x ^ y }

  function Right(x: bv32, k: nat): bv32
    requires k < 32
  {
    x >> k
  }

  function Left(x: bv32, k: nat): bv32
    requires k < 32
  {
    x << k
  }

  lemma WordOperations(x: bv32, y: bv32)
    ensures Plus(Minus(x, y), y) == x && Minus(Plus(x, y), y) == x && Xor(Xor(x, y), y) == x
  {
    hide Plus, Minus, Xor;
    MinusPlus(x, y);
    PlusMinus(x, y);
    XorTwice(x, y);
  }

  lemma MinusPlus(x: bv32, y: bv32)
    ensures Plus(Minus(x, y), y) == x
  {
    assert Plus(x - y, y) == x;
    hide Plus;
  }

  lemma PlusMinus(x: bv32, y: bv32)
    ensures Minus(Plus(x, y), y) == x
  {
    assert Minus(x + y, y) == x;
    hide Minus;
  }

  lemma XorTwice(x: bv32, y: bv32)
    ensures Xor(Xor(x, y), y) == x
  {
  }

  lemma PlusRegroups(x: bv32, y: bv32, z: bv32)
    ensures Plus(Plus(x, y), z) == Plus(x, Plus(y, z))
  {
    assert Plus(x + y, z) == Plus(x, y + z);
  }

  lemma PlusCancels(x: bv32, y: bv32, y': bv32)
    ensures Plus(x, y) == Plus(x, y') ==> y == y'
    ensures Plus(y, x) == Plus(y', x) ==> y == y'
  {
    hide Plus, Minus;
    PlusCommutes(x, y);
    PlusCommutes(x, y');
    PlusMinus(y, x);
    PlusMinus(y', x);
  }

  lemma PlusCommutes(x: bv32, y: bv32)
    ensures Plus(x, y) == Plus(y, x)
  {
  }

  // ---------------------------------------------------------------- mixing

  /** One line of HASH_JEN_MIX: a -= b; a -= c; a ^= s, with s the word c shifted. */
  function Step(a: bv32, b: bv32, c: bv32, s: bv32): bv32 {
    Xor(Minus(Minus(a, b), c), s)
  }

  function Undo(a: bv32, b: bv32, c: bv32, s: bv32): bv32 {
    Plus(Plus(Xor(a, s), c), b)
  }

  lemma StepUndone(a: bv32, b: bv32, c: bv32, s: bv32)
    ensures Undo(Step(a, b, c, s), b, c, s) == a
  {
    hide Plus, Minus, Xor;
    WordOperations(a, b);
    WordOperations(Minus(a, b), c);
    WordOperations(Minus(Minus(a, b), c), s);
  }

  lemma UndoStepped(a: bv32, b: bv32, c: bv32, s: bv32)
    ensures Step(Undo(a, b, c, s), b, c, s) == a
  {
    hide Plus, Minus, Xor;
    WordOperations(a, s);
    WordOperations(Xor(a, s), c);
    WordOperations(Plus(Xor(a, s), c), b);
  }

  /** Three lines of HASH_JEN_MIX, with the shifts right by p, left by q and right by r. */
  function Round(s: State, p: nat, q: nat, r: nat): State
    requires p < 32 && q < 32 && r < 32
  {
    var a := Step(s.i, s.j, s.h, Right(s.h, p));
    var b := Step(s.j, s.h, a, Left(a, q));
    var c := Step(s.h, a, b, Right(b, r));
    State(a, b, c)
  }

  function Unround(s: State, p: nat, q: nat, r: nat): State
    requires p < 32 && q < 32 && r < 32
  {
    var c := Undo(s.h, s.i, s.j, Right(s.j, r));
    var b := Undo(s.j, c, s.i, Left(s.i, q));
    var a := Undo(s.i, b, c, Right(c, p));
    State(a, b, c)
  }

  lemma RoundUndone(s: State, p: nat, q: nat, r: nat)
    requires p < 32 && q < 32 && r < 32
    ensures Unround(Round(s, p, q, r), p, q, r) == s
  {
    hide Step, Undo, Right, Left;
    var a := Step(s.i, s.j, s.h, Right(s.h, p));
    var b := Step(s.j, s.h, a, Left(a, q));
    StepUndone(s.i, s.j, s.h, Right(s.h, p));
    StepUndone(s.j, s.h, a, Left(a, q));
    StepUndone(s.h, a, b, Right(b, r));
  }

  lemma UnroundDone(s: State, p: nat, q: nat, r: nat)
    requires p < 32 && q < 32 && r < 32
    ensures Round(Unround(s, p, q, r), p, q, r) == s
  {
    hide Step, Undo, Right, Left;
    var c := Undo(s.h, s.i, s.j, Right(s.j, r));
    var b := Undo(s.j, c, s.i, Left(s.i, q));
    UndoStepped(s.i, b, c, Right(c, p));
    UndoStepped(s.j, c, s.i, Left(s.i, q));
    UndoStepped(s.h, s.i, s.j, Right(s.j, r));
  }

  /** HASH_JEN_MIX. */
  function Mix(s: State): State {
    Round(Round(Round(s, 13, 8, 13), 12, 16, 5), 3, 10, 15)
  }

  function Unmix(s: State): State {
    Unround(Unround(Unround(s, 3, 10, 15), 12, 16, 5), 13, 8, 13)
  }

  /** Mixing is a bijection on triples of words: Unmix is its inverse on both sides. */
  lemma MixIsBijection(s: State)
    ensures Unmix(Mix(s)) == s && Mix(Unmix(s)) == s
  {
    hide Round, Unround;
    var one := Round(s, 13, 8, 13);
    var two := Round(one, 12, 16, 5);
    RoundUndone(s, 13, 8, 13);
    RoundUndone(one, 12, 16, 5);
    RoundUndone(two, 3, 10, 15);
    var back := Unround(s, 3, 10, 15);
    var further := Unround(back, 12, 16, 5);
    UnroundDone(s, 3, 10, 15);
    UnroundDone(back, 12, 16, 5);
    UnroundDone(further, 13, 8, 13);
  }

  /** HASH_JEN_MIX as the macro does it, word by word in place. */
  method MixInPlace(s: State) returns (r: State)
    ensures r == Mix(s)
  {
    hide Minus, Xor, Left, Right;
    var a, b, c := s.i, s.j, s.h;
    a := Minus(a, b); a := Minus(a, c); a := Xor(a, Right(c, 13));
    b := Minus(b, c); b := Minus(b, a); b := Xor(b, Left(a, 8));
    c := Minus(c, a); c := Minus(c, b); c := Xor(c, Right(b, 13));
    a := Minus(a, b); a := Minus(a, c); a := Xor(a, Right(c, 12));
    b := Minus(b, c); b := Minus(b, a); b := Xor(b, Left(a, 16));
    c := Minus(c, a); c := Minus(c, b); c := Xor(c, Right(b, 5));
    a := Minus(a, b); a := Minus(a, c); a := Xor(a, Right(c, 3));
    b := Minus(b, c); b := Minus(b, a); b := Xor(b, Left(a, 10));
    c := Minus(c, a); c := Minus(c, b); c := Xor(c, Right(b, 15));
    r := State(a, b, c);
  }

  /** The nine lines of HASH_JEN_MIX, each new value under a name of its own. */
  lemma NineLines(i: bv32, j: bv32, h: bv32)
    ensures
      var i1 := Xor(Minus(Minus(i, j), h), Right(h, 13));
      var j1 := Xor(Minus(Minus(j, h), i1), Left(i1, 8));
      var h1 := Xor(Minus(Minus(h, i1), j1), Right(j1, 13));
      var i2 := Xor(Minus(Minus(i1, j1), h1), Right(h1, 12));
      var j2 := Xor(Minus(Minus(j1, h1), i2), Left(i2, 16));
      var h2 := Xor(Minus(Minus(h1, i2), j2), Right(j2, 5));
      var i3 := Xor(Minus(Minus(i2, j2), h2), Right(h2, 3));
      var j3 := Xor(Minus(Minus(j2, h2), i3), Left(i3, 10));
      var h3 := Xor(Minus(Minus(h2, i3), j3), Right(j3, 15));
      Mix(State(i, j, h)) == State(i3, j3, h3)
  {
    hide Minus, Xor, Left, Right;
  }

  // The operations are those of 32-bit words.

  lemma PlusIs(x: bv32, y: bv32)
    ensures Plus(x, y) == x + y
  {
  }

  lemma MinusIs(x: bv32, y: bv32)
    ensures Minus(x, y) == x - y
  {
  }

  lemma XorIs(x: bv32, y: bv32)
    ensures Xor(x, y) == x ^ y
  {
  }

  lemma ShiftsAre(x: bv32, k: nat)
    requires k < 32
    ensures Right(x, k) == x >> k
    ensures Left(x, k) == x << k
  {
  }

  // ---------------------------------------------------------------- bytes and words

  /** Byte k of the key; there are only zeros after its end. */
  function Byte(key: seq<bv8>, k: nat): (b: bv32)
    ensures b < 256
  {
    if k < |key| then key[k] as bv32 else 0
  }

  function Pack(a: bv32, b: bv32, c: bv32, d: bv32): bv32 {
    Plus(Plus(Plus(Left(d, 24), Left(c, 16)), Left(b, 8)), a)
  }

  lemma PackInjective(a: bv32, b: bv32, c: bv32, d: bv32, a': bv32, b': bv32, c': bv32, d': bv32)
    requires a < 256 && b < 256 && c < 256 && d < 256 && a' < 256 && b' < 256 && c' < 256 && d' < 256
    requires Pack(a, b, c, d) == Pack(a', b', c', d')
    ensures a == a' && b == b' && c == c' && d == d'
  {
    hide Pack;
    Unpacked(a, b, c, d);
    Unpacked(a', b', c', d');
  }

  lemma Unpacked(a: bv32, b: bv32, c: bv32, d: bv32)
    requires a < 256 && b < 256 && c < 256 && d < 256
    ensures var w := Pack(a, b, c, d);
      a == w & 0xFF && b == (w >> 8) & 0xFF && c == (w >> 16) & 0xFF && d == w >> 24
  {
  }

  /** The little-endian word at an offset, as if zeros followed the key. */
  function Word(key: seq<bv8>, at: nat): bv32 {
    Pack(Byte(key, at), Byte(key, at + 1), Byte(key, at + 2), Byte(key, at + 3))
  }

  /** The bytes one by one, the highest first, as the switch adds them. */
  function AddBytes(x: bv32, a: bv32, b: bv32, c: bv32, d: bv32): bv32 {
    Plus(Plus(Plus(Plus(x, Left(d, 24)), Left(c, 16)), Left(b, 8)), a)
  }

  lemma AddBytesAddsPack(x: bv32, a: bv32, b: bv32, c: bv32, d: bv32)
    ensures AddBytes(x, a, b, c, d) == Plus(x, Pack(a, b, c, d))
  {
    hide Plus, Left;
    PlusRegroups(x, Left(d, 24), Left(c, 16));
    PlusRegroups(x, Plus(Left(d, 24), Left(c, 16)), Left(b, 8));
    PlusRegroups(x, Plus(Plus(Left(d, 24), Left(c, 16)), Left(b, 8)), a);
  }

  lemma NoByte(x: bv32)
    ensures Plus(x, 0) == x && Left(0, 24) == 0 && Left(0, 16) == 0 && Left(0, 8) == 0
  {
  }

  // ---------------------------------------------------------------- the hash

  const START := State(0x9e3779b9, 0x9e3779b9, 0xfeedbeef)

  const WORD: nat := 0x1_0000_0000

  /** (unsigned)(keylen) as a word. */
  function Length32(n: nat): bv32 {
    (n % WORD) as bv32
  }

  /** The bytes that are hashed: the length is converted to 32 bits before it is counted down. */
  function Cut(key: seq<bv8>): seq<bv8> {
    key[..|key| % WORD]
  }

  lemma CutIsWhole(key: seq<bv8>)
    ensures Cut(key) == key <==> |key| < WORD
  {
    Lengths(|key|);
    assert |Cut(key)| == |key| % WORD;
    assert key[..|key|] == key;
  }

  lemma Lengths(n: nat)
    ensures n % WORD == n <==> n < WORD
  {
  }

  function Absorb(s: State, key: seq<bv8>, at: nat): State {
    State(Plus(s.i, Word(key, at)), Plus(s.j, Word(key, at + 4)), Plus(s.h, Word(key, at + 8)))
  }

  /** All whole blocks of 12 bytes from an offset on. */
  function Blocks(s: State, key: seq<bv8>, at: nat): State
    decreases |key| - at
  {
    if at + 12 <= |key| then Blocks(Mix(Absorb(s, key, at)), key, at + 12) else s
  }

  function Rest(key: seq<bv8>): nat { |key| / 12 * 12 }

  lemma RestIs(key: seq<bv8>, at: nat, k: nat)
    requires at + k == |key| && at % 12 == 0 && k < 12
    ensures at == Rest(key)
  {
  }

  function Tail(s: State, key: seq<bv8>): State {
    var at := Rest(key);
    State(Plus(s.i, Word(key, at)), Plus(s.j, Word(key, at + 4)),
      AddBytes(Plus(s.h, Length32(|key|)), 0, Byte(key, at + 8), Byte(key, at + 9), Byte(key, at + 10)))
  }

  /** The three words that HASH_JEN ends with; hashv, the last, is the hash value. */
  function Final(key: seq<bv8>): State {
    Mix(Tail(Blocks(START, Cut(key), 0), Cut(key)))
  }

  /** HASH_JEN. */
  method Hash(wholeKey: seq<bv8>) returns (hashv: bv32)
    ensures hashv == Final(wholeKey).h
    ensures |wholeKey| == 4 ==> (
      var word := Plus(Plus(Plus(Left(wholeKey[3] as bv32, 24), Left(wholeKey[2] as bv32, 16)),
        Left(wholeKey[1] as bv32, 8)), wholeKey[0] as bv32);
      var i, j, h := Plus(0x9e3779b9, word), 0x9e3779b9, Plus(0xfeedbeef, 4);
      var i1 := Xor(Minus(Minus(i, j), h), Right(h, 13));
      var j1 := Xor(Minus(Minus(j, h), i1), Left(i1, 8));
      var h1 := Xor(Minus(Minus(h, i1), j1), Right(j1, 13));
      var i2 := Xor(Minus(Minus(i1, j1), h1), Right(h1, 12));
      var j2 := Xor(Minus(Minus(j1, h1), i2), Left(i2, 16));
      var h2 := Xor(Minus(Minus(h1, i2), j2), Right(j2, 5));
      var i3 := Xor(Minus(Minus(i2, j2), h2), Right(h2, 3));
      var j3 := Xor(Minus(Minus(j2, h2), i3), Left(i3, 10));
      var h3 := Xor(Minus(Minus(h2, i3), j3), Right(j3, 15));
      hashv == h3)
    ensures |wholeKey| == 12 ==> (
      var i := Plus(0x9e3779b9, Plus(Plus(Plus(Left(wholeKey[3] as bv32, 24), Left(wholeKey[2] as bv32, 16)),
        Left(wholeKey[1] as bv32, 8)), wholeKey[0] as bv32));
      var j := Plus(0x9e3779b9, Plus(Plus(Plus(Left(wholeKey[7] as bv32, 24), Left(wholeKey[6] as bv32, 16)),
        Left(wholeKey[5] as bv32, 8)), wholeKey[4] as bv32));
      var h := Plus(0xfeedbeef, Plus(Plus(Plus(Left(wholeKey[11] as bv32, 24), Left(wholeKey[10] as bv32, 16)),
        Left(wholeKey[9] as bv32, 8)), wholeKey[8] as bv32));
      var i1 := Xor(Minus(Minus(i, j), h), Right(h, 13));
      var j1 := Xor(Minus(Minus(j, h), i1), Left(i1, 8));
      var h1 := Xor(Minus(Minus(h, i1), j1), Right(j1, 13));
      var i2 := Xor(Minus(Minus(i1, j1), h1), Right(h1, 12));
      var j2 := Xor(Minus(Minus(j1, h1), i2), Left(i2, 16));
      var h2 := Xor(Minus(Minus(h1, i2), j2), Right(j2, 5));
      var i3 := Xor(Minus(Minus(i2, j2), h2), Right(h2, 3));
      var j3 := Xor(Minus(Minus(j2, h2), i3), Left(i3, 10));
      var h3 := Xor(Minus(Minus(h2, i3), j3), Right(j3, 15));
      var g := Plus(h3, 12);
      var i1' := Xor(Minus(Minus(i3, j3), g), Right(g, 13));
      var j1' := Xor(Minus(Minus(j3, g), i1'), Left(i1', 8));
      var h1' := Xor(Minus(Minus(g, i1'), j1'), Right(j1', 13));
      var i2' := Xor(Minus(Minus(i1', j1'), h1'), Right(h1', 12));
      var j2' := Xor(Minus(Minus(j1', h1'), i2'), Left(i2', 16));
      var h2' := Xor(Minus(Minus(h1', i2'), j2'), Right(j2', 5));
      var i3' := Xor(Minus(Minus(i2', j2'), h2'), Right(h2', 3));
      var j3' := Xor(Minus(Minus(j2', h2'), i3'), Left(i3', 10));
      var h3' := Xor(Minus(Minus(h2', i3'), j3'), Right(j3', 15));
      hashv == h3')
  {
    hide Mix, Plus, Tail, Length32, Word;
    var s := START;
    var at: nat, k: nat := 0, |wholeKey| % WORD;
    var key := Cut(wholeKey);  // as far as the counter lets the loop read
    while k >= 12
      invariant at + k == |key| && at % 12 == 0 && Blocks(s, key, at) == Blocks(START, key, 0)
    {
      s := MixInPlace(Absorb(s, key, at));
      at, k := at + 12, k - 12;
    }
    RestIs(key, at, k);
    s := AddTail(s, key, k);
    s := MixInPlace(s);
    hashv := s.h;
    if |wholeKey| == 4 {
      FourByteKey(wholeKey);
    } else if |wholeKey| == 12 {
      TwelveByteKey(wholeKey);
    }
  }

  /** Four cases of the switch of HASH_JEN, each falling through to the next: n bytes are
      left from the offset on. */
  method AddWord(x: bv32, key: seq<bv8>, at: nat, n: int) returns (r: bv32)
    requires n == |key| - at
    ensures r == Plus(x, Word(key, at))
  {
    hide Plus, Left;
    r := x;
    if n >= 4 { r := Plus(r, Left(key[at + 3] as bv32, 24)); }
    NoByte(r);
    if n >= 3 { r := Plus(r, Left(key[at + 2] as bv32, 16)); }
    NoByte(r);
    if n >= 2 { r := Plus(r, Left(key[at + 1] as bv32, 8)); }
    NoByte(r);
    if n >= 1 { r := Plus(r, key[at] as bv32); }
    AddBytesAddsPack(x, Byte(key, at), Byte(key, at + 1), Byte(key, at + 2), Byte(key, at + 3));
  }

  /** The switch of HASH_JEN; its first three cases leave the lowest byte of hashv to the
      key's length. */
  method AddTail(s: State, key: seq<bv8>, k: nat) returns (r: State)
    requires k == |key| - Rest(key) < 12
    ensures r == Tail(s, key)
  {
    hide Plus, Left, Length32, Word;
    var at := Rest(key);
    var h := Plus(s.h, Length32(|key|));
    NoByte(h);
    if k >= 11 { h := Plus(h, Left(key[at + 10] as bv32, 24)); }
    NoByte(h);
    if k >= 10 { h := Plus(h, Left(key[at + 9] as bv32, 16)); }
    NoByte(h);
    if k >= 9 { h := Plus(h, Left(key[at + 8] as bv32, 8)); }
    NoByte(h);
    var j := AddWord(s.j, key, at + 4, k - 4);
    var i := AddWord(s.i, key, at, k);
    r := State(i, j, h);
  }

  // ---------------------------------------------------------------- in plain terms

  lemma ShortKey(key: seq<bv8>)
    requires |key| < 12
    ensures Final(key) == Mix(Tail(START, key)) && Rest(key) == 0
  {
    hide Mix, Tail;
    RestIs(key, 0, |key|);
    assert Cut(key) == key;
  }

  lemma NoWord(key: seq<bv8>, at: nat, x: bv32)
    requires |key| <= at
    ensures Plus(x, Word(key, at)) == x
    ensures AddBytes(x, 0, Byte(key, at), Byte(key, at + 1), Byte(key, at + 2)) == x
  {
    hide Plus, Left;
    NoByte(0);
    NoByte(x);
  }

  lemma WordIs(key: seq<bv8>, at: nat)
    requires at + 4 <= |key|
    ensures Word(key, at) == Plus(Plus(Plus(Left(key[at + 3] as bv32, 24), Left(key[at + 2] as bv32, 16)),
      Left(key[at + 1] as bv32, 8)), key[at] as bv32)
  {
    hide Plus, Left;
  }

  lemma FourByteTail(key: seq<bv8>)
    requires |key| == 4
    ensures Tail(START, key) == State(
      Plus(0x9e3779b9, Plus(Plus(Plus(Left(key[3] as bv32, 24), Left(key[2] as bv32, 16)), Left(key[1] as bv32, 8)),
        key[0] as bv32)),
      0x9e3779b9, Plus(0xfeedbeef, 4))
  {
    hide Plus, Word, AddBytes, Byte, Left;
    WordIs(key, 0);
    RestIs(key, 0, 4);
    NoWord(key, 4, 0x9e3779b9);
    NoWord(key, 8, Plus(0xfeedbeef, 4));
  }

  /** What becomes of a key of four bytes, such as a file descriptor: the nine lines once. */
  lemma FourByteKey(key: seq<bv8>)
    requires |key| == 4
    ensures
      var word := Plus(Plus(Plus(Left(key[3] as bv32, 24), Left(key[2] as bv32, 16)), Left(key[1] as bv32, 8)),
        key[0] as bv32);
      var i, j, h := Plus(0x9e3779b9, word), 0x9e3779b9, Plus(0xfeedbeef, 4);
      var i1 := Xor(Minus(Minus(i, j), h), Right(h, 13));
      var j1 := Xor(Minus(Minus(j, h), i1), Left(i1, 8));
      var h1 := Xor(Minus(Minus(h, i1), j1), Right(j1, 13));
      var i2 := Xor(Minus(Minus(i1, j1), h1), Right(h1, 12));
      var j2 := Xor(Minus(Minus(j1, h1), i2), Left(i2, 16));
      var h2 := Xor(Minus(Minus(h1, i2), j2), Right(j2, 5));
      var i3 := Xor(Minus(Minus(i2, j2), h2), Right(h2, 3));
      var j3 := Xor(Minus(Minus(j2, h2), i3), Left(i3, 10));
      var h3 := Xor(Minus(Minus(h2, i3), j3), Right(j3, 15));
      Final(key) == State(i3, j3, h3)
  {
    hide Plus, Minus, Xor, Left, Right, Tail, Final, START, Rest;
    ShortKey(key);
    FourByteTail(key);
  }

  lemma DescriptorThreeTail(key: seq<bv8>)
    requires key == [3, 0, 0, 0]
    ensures Tail(START, key) == State(0x9e3779bc, 0x9e3779b9, 0xfeedbef3)
  {{
    FourByteTail(key);
    hide Tail, START;
  }}

  lemma DescriptorThreeMixed()
    ensures Mix(State(0x9e3779bc, 0x9e3779b9, 0xfeedbef3)) == State(0x971a8f2e, 0xc71819f8, 0xb68ef0e4)
  {
    assert Round(State(0x9e3779bc, 0x9e3779b9, 0xfeedbef3), 13, 8, 13) == State(0x0115b67d, 0x8b827949, 0x7251d33e);
    assert Round(State(0x0115b67d, 0x8b827949, 0x7251d33e), 12, 16, 5) == State(0x03464ceb, 0x59015920, 0x14c227fa);
    assert Round(State(0x03464ceb, 0x59015920, 0x14c227fa), 3, 10, 15) == State(0x971a8f2e, 0xc71819f8, 0xb68ef0e4);
    hide Round;
  }

  /** The hash value of descriptor 3. */
  lemma DescriptorThree()
    ensures Final([3, 0, 0, 0]).h == 0xb68ef0e4
  {
    hide Tail, Final, START, Mix;
    ShortKey([3, 0, 0, 0]);
    DescriptorThreeTail([3, 0, 0, 0]);
    DescriptorThreeMixed();
  }

  lemma TwelveByteTail(s: State, key: seq<bv8>)
    requires |key| == 12
    ensures Tail(s, key) == State(s.i, s.j, Plus(s.h, 12))
  {
    hide Plus, Word, AddBytes, Byte;
    RestIs(key, 12, 0);
    NoWord(key, 12, s.i);
    NoWord(key, 16, s.j);
    NoWord(key, 20, Plus(s.h, 12));
  }

  lemma TwelveByteBlock(key: seq<bv8>)
    requires |key| == 12
    ensures Absorb(START, key, 0) == State(
      Plus(0x9e3779b9, Plus(Plus(Plus(Left(key[3] as bv32, 24), Left(key[2] as bv32, 16)), Left(key[1] as bv32, 8)),
        key[0] as bv32)),
      Plus(0x9e3779b9, Plus(Plus(Plus(Left(key[7] as bv32, 24), Left(key[6] as bv32, 16)), Left(key[5] as bv32, 8)),
        key[4] as bv32)),
      Plus(0xfeedbeef, Plus(Plus(Plus(Left(key[11] as bv32, 24), Left(key[10] as bv32, 16)), Left(key[9] as bv32, 8)),
        key[8] as bv32)))
  {
    hide Plus, Left, Word;
    WordIs(key, 0);
    WordIs(key, 4);
    WordIs(key, 8);
  }

  lemma OneBlockKey(key: seq<bv8>)
    requires |key| == 12
    ensures var s := Mix(Absorb(START, key, 0)); Final(key) == Mix(State(s.i, s.j, Plus(s.h, 12)))
  {
    hide Mix, Tail, Absorb, Plus;
    var s := Mix(Absorb(START, key, 0));
    assert Cut(key) == key;
    assert Blocks(s, key, 12) == s;
    TwelveByteTail(s, key);
  }

  lemma {:induction false} BlocksTrace(s: State, key: seq<bv8>, at: nat) returns (states: seq<State>)
    requires at <= |key|
    ensures |states| == (|key| - at) / 12 + 1 && states[0] == s && Blocks(s, key, at) == states[|states| - 1]
    ensures forall b :: 0 <= b < |states| - 1 ==> states[b + 1] == Mix(Absorb(states[b], key, at + 12 * b))
    decreases |key| - at
  {
    hide Mix, Absorb;
    if at + 12 <= |key| {
      var more := BlocksTrace(Mix(Absorb(s, key, at)), key, at + 12);
      states := [s] + more;
      forall b | 0 <= b < |states| - 1 ensures states[b + 1] == Mix(Absorb(states[b], key, at + 12 * b)) {
        assert b > 0 ==> states[b + 1] == more[b - 1 + 1] && states[b] == more[b - 1];
      }
    } else {
      states := [s];
    }
  }

  lemma TailAt(s: State, key: seq<bv8>)
    requires |key| < 0x1_0000_0000
    ensures var at := 12 * (|key| / 12);
      Tail(s, key) == State(Plus(s.i, Word(key, at)), Plus(s.j, Word(key, at + 4)),
        Plus(Plus(Plus(Plus(s.h, |key| as bv32), Left(Byte(key, at + 10), 24)), Left(Byte(key, at + 9), 16)),
          Left(Byte(key, at + 8), 8)))
  {
    hide Plus, Word, Left, Byte, Length32, AddBytes;
    var at := 12 * (|key| / 12);
    LengthIs(|key|);
    NoLowByte(Plus(s.h, Length32(|key|)), Byte(key, at + 8), Byte(key, at + 9), Byte(key, at + 10));
  }

  lemma NoLowByte(x: bv32, b: bv32, c: bv32, d: bv32)
    ensures AddBytes(x, 0, b, c, d) == Plus(Plus(Plus(x, Left(d, 24)), Left(c, 16)), Left(b, 8))
  {
    hide Plus, Left;
    NoByte(Plus(Plus(Plus(x, Left(d, 24)), Left(c, 16)), Left(b, 8)));
  }

  lemma LengthIs(n: nat)
    requires n < 0x1_0000_0000
    ensures Length32(n) == n as bv32
  {
  }

  /** The little-endian word at an offset, as if zeros followed the key. */
  lemma WordMeans(key: seq<bv8>, at: nat)
    ensures var b0 := if at < |key| then key[at] as bv32 else 0;
      var b1 := if at + 1 < |key| then key[at + 1] as bv32 else 0;
      var b2 := if at + 2 < |key| then key[at + 2] as bv32 else 0;
      var b3 := if at + 3 < |key| then key[at + 3] as bv32 else 0;
      Word(key, at) == Plus(Plus(Plus(Left(b3, 24), Left(b2, 16)), Left(b1, 8)), b0)
  {
    hide Plus, Left;
  }

  /** What becomes of a key of any length the length word can hold: each block of twelve bytes is
      added as three words and mixed in; then the length and the bytes that are left are added
      and mixed in. */
  lemma HashTrace(key: seq<bv8>) returns (states: seq<State>)
    requires |key| < 0x1_0000_0000
    ensures |states| == |key| / 12 + 1 && states[0] == State(0x9e3779b9, 0x9e3779b9, 0xfeedbeef)
    ensures forall b :: 0 <= b < |key| / 12 ==> (var s, at := states[b], 12 * b;
      states[b + 1] == Mix(State(Plus(s.i, Word(key, at)), Plus(s.j, Word(key, at + 4)), Plus(s.h, Word(key, at + 8)))))
    ensures var s, at := states[|key| / 12], 12 * (|key| / 12);
      Final(key) == Mix(State(Plus(s.i, Word(key, at)), Plus(s.j, Word(key, at + 4)),
        Plus(Plus(Plus(Plus(s.h, |key| as bv32), Left(Byte(key, at + 10), 24)), Left(Byte(key, at + 9), 16)),
          Left(Byte(key, at + 8), 8))))
  {
    hide Mix, Plus, Word, Left, Byte, Blocks;
    CutIsWhole(key);
    states := BlocksTrace(START, key, 0);
    TailAt(states[|key| / 12], key);
  }

  /** What becomes of a key of twelve bytes: the nine lines with the whole block added, and once
      more with the length added. */
  lemma TwelveByteKey(key: seq<bv8>)
    requires |key| == 12
    ensures
      var i := Plus(0x9e3779b9, Plus(Plus(Plus(Left(key[3] as bv32, 24), Left(key[2] as bv32, 16)),
        Left(key[1] as bv32, 8)), key[0] as bv32));
      var j := Plus(0x9e3779b9, Plus(Plus(Plus(Left(key[7] as bv32, 24), Left(key[6] as bv32, 16)),
        Left(key[5] as bv32, 8)), key[4] as bv32));
      var h := Plus(0xfeedbeef, Plus(Plus(Plus(Left(key[11] as bv32, 24), Left(key[10] as bv32, 16)),
        Left(key[9] as bv32, 8)), key[8] as bv32));
      var i1 := Xor(Minus(Minus(i, j), h), Right(h, 13));
      var j1 := Xor(Minus(Minus(j, h), i1), Left(i1, 8));
      var h1 := Xor(Minus(Minus(h, i1), j1), Right(j1, 13));
      var i2 := Xor(Minus(Minus(i1, j1), h1), Right(h1, 12));
      var j2 := Xor(Minus(Minus(j1, h1), i2), Left(i2, 16));
      var h2 := Xor(Minus(Minus(h1, i2), j2), Right(j2, 5));
      var i3 := Xor(Minus(Minus(i2, j2), h2), Right(h2, 3));
      var j3 := Xor(Minus(Minus(j2, h2), i3), Left(i3, 10));
      var h3 := Xor(Minus(Minus(h2, i3), j3), Right(j3, 15));
      var g := Plus(h3, 12);
      var i1' := Xor(Minus(Minus(i3, j3), g), Right(g, 13));
      var j1' := Xor(Minus(Minus(j3, g), i1'), Left(i1', 8));
      var h1' := Xor(Minus(Minus(g, i1'), j1'), Right(j1', 13));
      var i2' := Xor(Minus(Minus(i1', j1'), h1'), Right(h1', 12));
      var j2' := Xor(Minus(Minus(j1', h1'), i2'), Left(i2', 16));
      var h2' := Xor(Minus(Minus(h1', i2'), j2'), Right(j2', 5));
      var i3' := Xor(Minus(Minus(i2', j2'), h2'), Right(h2', 3));
      var j3' := Xor(Minus(Minus(j2', h2'), i3'), Left(i3', 10));
      var h3' := Xor(Minus(Minus(h2', i3'), j3'), Right(j3', 15));
      Final(key) == State(i3', j3', h3')
  {
    hide Plus, Minus, Xor, Left, Right, Tail, Final, START, Rest, Absorb;
    OneBlockKey(key);
    TwelveByteBlock(key);
  }

  // ---------------------------------------------------------------- keys that cannot collide

  /** The keys agree on all bytes from lo up to hi. */
  ghost predicate Agree(key: seq<bv8>, key': seq<bv8>, lo: nat, hi: nat) {
    forall k :: lo <= k < hi ==> Byte(key, k) == Byte(key', k)
  }

  lemma MixInjective(s: State, s': State)
    requires Mix(s) == Mix(s')
    ensures s == s'
  {
    hide Mix, Unmix;
    MixIsBijection(s);
    MixIsBijection(s');
  }

  lemma WordInjective(key: seq<bv8>, key': seq<bv8>, at: nat)
    requires Word(key, at) == Word(key', at)
    ensures Agree(key, key', at, at + 4)
  {
    hide Pack, Byte;
    PackInjective(Byte(key, at), Byte(key, at + 1), Byte(key, at + 2), Byte(key, at + 3),
      Byte(key', at), Byte(key', at + 1), Byte(key', at + 2), Byte(key', at + 3));
  }

  /** From one state, absorbing tells blocks apart; for one block, it tells states apart. */
  lemma AbsorbInjective(s: State, s': State, key: seq<bv8>, key': seq<bv8>, at: nat)
    requires Absorb(s, key, at) == Absorb(s', key', at)
    ensures s == s' ==> Agree(key, key', at, at + 12)
    ensures Agree(key, key', at, at + 12) ==> s == s'
  {
    hide Plus, Byte, Pack;
    if s == s' {
      PlusCancels(s.i, Word(key, at), Word(key', at));
      PlusCancels(s.j, Word(key, at + 4), Word(key', at + 4));
      PlusCancels(s.h, Word(key, at + 8), Word(key', at + 8));
      WordInjective(key, key', at);
      WordInjective(key, key', at + 4);
      WordInjective(key, key', at + 8);
    } else if Agree(key, key', at, at + 12) {
      PlusCancels(Word(key, at), s.i, s'.i);
      PlusCancels(Word(key, at + 4), s.j, s'.j);
      PlusCancels(Word(key, at + 8), s.h, s'.h);
    }
  }

  lemma TailInjective(s: State, s': State, key: seq<bv8>, key': seq<bv8>)
    requires |key| == |key'| && Tail(s, key) == Tail(s', key')
    ensures s == s' ==> Agree(key, key', Rest(key), Rest(key) + 11)
    ensures Agree(key, key', Rest(key), Rest(key) + 12) ==> s == s'
  {
    hide Plus, Byte, Pack, Length32, AddBytes;
    var at, n := Rest(key), Length32(|key|);
    var high := Pack(0, Byte(key, at + 8), Byte(key, at + 9), Byte(key, at + 10));
    var high' := Pack(0, Byte(key', at + 8), Byte(key', at + 9), Byte(key', at + 10));
    AddBytesAddsPack(Plus(s.h, n), 0, Byte(key, at + 8), Byte(key, at + 9), Byte(key, at + 10));
    AddBytesAddsPack(Plus(s'.h, n), 0, Byte(key', at + 8), Byte(key', at + 9), Byte(key', at + 10));
    if s == s' {
      PlusCancels(s.i, Word(key, at), Word(key', at));
      PlusCancels(s.j, Word(key, at + 4), Word(key', at + 4));
      PlusCancels(Plus(s.h, n), high, high');
      WordInjective(key, key', at);
      WordInjective(key, key', at + 4);
      PackInjective(0, Byte(key, at + 8), Byte(key, at + 9), Byte(key, at + 10),
        0, Byte(key', at + 8), Byte(key', at + 9), Byte(key', at + 10));
    } else if Agree(key, key', at, at + 12) {
      PlusCancels(Word(key, at), s.i, s'.i);
      PlusCancels(Word(key, at + 4), s.j, s'.j);
      PlusCancels(high, Plus(s.h, n), Plus(s'.h, n));
      PlusCancels(n, s.h, s'.h);
    }
  }

  /** Blocks that agree from an offset on keep different states apart. */
  lemma {:induction false} BlocksInjective(s: State, s': State, key: seq<bv8>, key': seq<bv8>, at: nat)
    requires |key| == |key'| && Agree(key, key', at, |key|)
    requires Blocks(s, key, at) == Blocks(s', key', at)
    ensures s == s'
    decreases |key| - at
  {
    hide Mix, Absorb, Byte;
    if at + 12 <= |key| {
      BlocksInjective(Mix(Absorb(s, key, at)), Mix(Absorb(s', key', at)), key, key', at + 12);
      MixInjective(Absorb(s, key, at), Absorb(s', key', at));
      AbsorbInjective(s, s', key, key', at);
    }
  }

  /** A difference within one whole block survives the blocks. */
  lemma {:induction false} BlockSurvives(s: State, key: seq<bv8>, key': seq<bv8>, at: nat, b: nat)
    requires |key| == |key'| && at <= b && (b - at) % 12 == 0 && b + 12 <= |key|
    requires Agree(key, key', at, b) && Agree(key, key', b + 12, |key|)
    requires Blocks(s, key, at) == Blocks(s, key', at)
    ensures Agree(key, key', b, b + 12)
    decreases b - at
  {
    hide Mix, Byte, Absorb;
    if at == b {
      BlocksInjective(Mix(Absorb(s, key, at)), Mix(Absorb(s, key', at)), key, key', at + 12);
      MixInjective(Absorb(s, key, at), Absorb(s, key', at));
      AbsorbInjective(s, s, key, key', at);
    } else {
      SameAbsorb(s, key, key', at);
      BlockSurvives(Mix(Absorb(s, key, at)), key, key', at + 12, b);
    }
  }

  lemma SameAbsorb(s: State, key: seq<bv8>, key': seq<bv8>, at: nat)
    requires Agree(key, key', at, at + 12)
    ensures Absorb(s, key, at) == Absorb(s, key', at)
  {
    hide Plus, Byte, Pack;
  }

  lemma {:induction false} SameBlocks(s: State, key: seq<bv8>, key': seq<bv8>, at: nat)
    requires |key| == |key'| && Agree(key, key', at, Rest(key)) && at % 12 == 0
    ensures Blocks(s, key, at) == Blocks(s, key', at)
    decreases |key| - at
  {
    hide Mix, Byte, Absorb;
    if at + 12 <= |key| {
      SameAbsorb(s, key, key', at);
      SameBlocks(Mix(Absorb(s, key, at)), key, key', at + 12);
    }
  }

  /** Keys of one length that differ in a single aligned block of 12 bytes, or in the bytes
      after the last whole block, end in the same three words exactly if they do not differ in
      a byte that is hashed. */
  lemma OneBlockDetermined(key: seq<bv8>, key': seq<bv8>, b: nat)
    requires |key| == |key'| && b % 12 == 0 && b <= |Cut(key)|
    requires Agree(Cut(key), Cut(key'), 0, b) && Agree(Cut(key), Cut(key'), b + 12, |Cut(key)|)
    ensures Final(key) == Final(key') <==> Cut(key) == Cut(key')
  {
    hide Mix, Tail, Blocks, Byte;
    if Final(key) == Final(key') {
      MixInjective(Tail(Blocks(START, Cut(key), 0), Cut(key)), Tail(Blocks(START, Cut(key'), 0), Cut(key')));
      SameTailSameKey(Cut(key), Cut(key'), b);
    }
  }

  lemma SameTailSameKey(key: seq<bv8>, key': seq<bv8>, b: nat)
    requires |key| == |key'| && b % 12 == 0 && b <= |key|
    requires Agree(key, key', 0, b) && Agree(key, key', b + 12, |key|)
    requires Tail(Blocks(START, key, 0), key) == Tail(Blocks(START, key', 0), key')
    ensures key == key'
  {
    hide Mix, Tail, Blocks, Byte;
    TailInjective(Blocks(START, key, 0), Blocks(START, key', 0), key, key');
    if b + 12 <= |key| {
      AfterEnd(key, key');
      BlockSurvives(START, key, key', 0, b);
    } else {
      SameBlocks(START, key, key', 0);
    }
    SameBytes(key, key');
  }

  lemma AfterEnd(key: seq<bv8>, key': seq<bv8>)
    requires |key| == |key'|
    ensures forall k :: |key| <= k ==> Byte(key, k) == Byte(key', k)
  {
  }

  lemma SameBytes(key: seq<bv8>, key': seq<bv8>)
    requires |key| == |key'| && Agree(key, key', 0, |key|)
    ensures key == key'
  {
    forall k | 0 <= k < |key| ensures key[k] == key'[k] {
      assert Byte(key, k) == Byte(key', k);
      Widened(key[k], key'[k]);
    }
  }

  lemma Widened(a: bv8, b: bv8)
    requires a as bv32 == b as bv32
    ensures a == b
  {
  }

  /** For keys of one length and at most 12 bytes, such as the file descriptors of the buffer
      table, the three words determine the key. */
  lemma ShortKeyDetermined(key: seq<bv8>, key': seq<bv8>)
    requires |key| == |key'| <= 12
    ensures Final(key) == Final(key') ==> key == key'
  {
    CutIsWhole(key);
    CutIsWhole(key');
    OneBlockDetermined(key, key', 0);
  }
}
