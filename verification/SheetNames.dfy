/** genColumnNames: invented names for sheet columns, as sequences of code points. */
module SheetNames {

  const BLOCK := 24
  /** Blocks whose prefixes print differently: none, then 'A' up to the first surrogate. */
  const DISTINCT_BLOCKS := 55233

  /** A rune is an int32. */
  function Rune(n: int): int {
    (n + 0x8000_0000) % 0x1_0000_0000 - 0x8000_0000
  }

  /** What string(r) prints: U+FFFD for anything that is not a character. */
  function Shown(r: int): int {
    if 0 <= r < 0xD800 || 0xE000 <= r <= 0x10FFFF then r else 0xFFFD
  }

  function Prefix(block: nat): seq<int> {
    if block == 0 then [] else [Shown(Rune(64 + block))]
  }

  /** Two decimal digits. */
  function Number(place: nat): (d: seq<int>)
    requires place < BLOCK
    ensures |d| == 2
  {
    [48 + (65 + place) / 10, 48 + (65 + place) % 10]
  }

  lemma NumberTells(p: nat, q: nat)
    requires p < BLOCK && q < BLOCK && Number(p) == Number(q)
    ensures p == q
  {
    assert Number(p)[0] == Number(q)[0] && Number(p)[1] == Number(q)[1];
  }

  /** Block i / 24 gives the prefix, place i % 24 the number 65 to 88 in decimal. */
  function Name(i: nat): seq<int> {
    Prefix(i / BLOCK) + Number(i % BLOCK)
  }

  lemma NameAt(block: nat, place: nat)
    requires place < BLOCK
    ensures Name(BLOCK * block + place) == Prefix(block) + Number(place)
  {
    assert (BLOCK * block + place) / BLOCK == block && (BLOCK * block + place) % BLOCK == place;
  }

  lemma RuneNext(n: int)
    ensures Rune(Rune(n) + 1) == Rune(n + 1)
  {
  }

  lemma PrefixNext(block: nat)
    ensures Prefix(block + 1) == [Shown(Rune(65 + block))]
  {
  }

  method GenColumnNames(colCount: int) returns (cols: seq<seq<int>>)
    ensures |cols| == (if colCount < 0 then 0 else colCount)
    ensures forall i :: 0 <= i < |cols| ==> cols[i] == Name(i)
    ensures forall i :: 0 <= i < |cols| ==>
              |cols[i]| == (if i < 24 then 2 else 3)
              && cols[i][|cols[i]| - 2..] == [48 + (65 + i % 24) / 10, 48 + (65 + i % 24) % 10]
              && (24 <= i < 24 * 0xD7C0 ==> cols[i][0] == 64 + i / 24)
  {
    cols := [];
    var currentChar, prefixChar, currentPrefix, charsDone := 65, 65, [], 0;
    var i := 0;
    ghost var block := 0;
    while i < colCount
      invariant |cols| == i && (i <= colCount || i == 0)
      invariant forall k :: 0 <= k < i ==> cols[k] == Name(k)
      invariant i == BLOCK * block + charsDone && 0 <= charsDone <= BLOCK && currentChar == 65 + charsDone
      invariant prefixChar == Rune(65 + block) && currentPrefix == Prefix(block)
    {
      hide Name, Shown, Rune, Prefix;
      if charsDone >= BLOCK {
        RuneNext(65 + block);
        PrefixNext(block);
        currentPrefix := [Shown(prefixChar)];
        prefixChar := Rune(prefixChar + 1);
        charsDone := 0;
        currentChar := 65;
        block := block + 1;
      }
      NameAt(block, charsDone);
      cols := cols + [currentPrefix + [48 + currentChar / 10, 48 + currentChar % 10]];
      currentChar := currentChar + 1;
      charsDone := charsDone + 1;
      i := i + 1;
    }
    forall k: nat | k < |cols|
      ensures |cols[k]| == (if k < 24 then 2 else 3)
      ensures cols[k][|cols[k]| - 2..] == [48 + (65 + k % 24) / 10, 48 + (65 + k % 24) % 10]
      ensures 24 <= k < 24 * 0xD7C0 ==> cols[k][0] == 64 + k / 24
    {
      NameIs(k);
    }
  }

  lemma NameIs(i: nat)
    ensures |Name(i)| == (if i < 24 then 2 else 3)
    ensures Name(i)[|Name(i)| - 2..] == [48 + (65 + i % 24) / 10, 48 + (65 + i % 24) % 10]
    ensures 24 <= i < 24 * 0xD7C0 ==> Name(i)[0] == 64 + i / 24
  {
    assert |Prefix(i / 24)| == if i < 24 then 0 else 1;
    assert Name(i)[|Name(i)| - 2..] == Number(i % 24);
    assert 24 <= i < 24 * 0xD7C0 ==> 1 <= i / 24 < 0xD7C0;
  }

  lemma PrefixTells(b: nat, c: nat)
    requires b < c < DISTINCT_BLOCKS
    ensures |Prefix(b)| < |Prefix(c)| == 1 || (|Prefix(b)| == |Prefix(c)| == 1 && Prefix(b)[0] != Prefix(c)[0])
  {
  }

  lemma NameTells(i: nat, j: nat)
    requires i < j < BLOCK * DISTINCT_BLOCKS
    ensures Name(i) != Name(j)
  {
    var b, c := i / BLOCK, j / BLOCK;
    if b == c {
      if Name(i) == Name(j) {
        assert Name(i)[|Prefix(b)|..] == Number(i % BLOCK) && Name(j)[|Prefix(b)|..] == Number(j % BLOCK);
        NumberTells(i % BLOCK, j % BLOCK);
        assert false;
      }
    } else {
      assert b < c < DISTINCT_BLOCKS;
      PrefixTells(b, c);
      assert Prefix(b) != [] ==> Name(i)[0] == Prefix(b)[0] && Name(j)[0] == Prefix(c)[0];
    }
  }

  /** The names are pairwise distinct exactly as long as no second prefix is a surrogate. */
  lemma NamesAreDistinct(colCount: nat)
    ensures (forall i, j :: 0 <= i < j < colCount ==> Name(i) != Name(j)) <==> colCount <= 24 * 55233
  {
    hide Name;
    if colCount <= BLOCK * DISTINCT_BLOCKS {
      forall i, j | 0 <= i < j < colCount ensures Name(i) != Name(j) {
        NameTells(i, j);
      }
    } else {
      NameAt(DISTINCT_BLOCKS - 1, 0);
      NameAt(DISTINCT_BLOCKS, 0);
      assert Name(BLOCK * (DISTINCT_BLOCKS - 1)) == Name(BLOCK * DISTINCT_BLOCKS);
    }
  }
}
