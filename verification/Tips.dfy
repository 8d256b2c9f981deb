/** Chain tips: `GetKnownTipsFromBlocks` in blockchain/consensus/forks.go. */
module Tips {
  import opened Machine
  import opened Sorting

  type Hash = string

  datatype Block = Block(height: nat, prevHash: seq<uint8>)

  const DIGITS := "0123456789abcdef"

  function Hex(bytes: seq<uint8>): Hash {
    if bytes == [] then "" else [DIGITS[bytes[0] / 16], DIGITS[bytes[0] % 16]] + Hex(bytes[1..])
  }

  /** Two lower-case digits for every byte, the upper half first. */
  lemma {:induction false} HexDigits(bytes: seq<uint8>, i: nat)
    requires i < |bytes|
    ensures |Hex(bytes)| == 2 * |bytes|
    ensures Hex(bytes)[2 * i] == "0123456789abcdef"[bytes[i] / 16]
    ensures Hex(bytes)[2 * i + 1] == "0123456789abcdef"[bytes[i] % 16]
  {
    if |bytes| == 1 {
      assert bytes[1..] == [];
    } else {
      HexDigits(bytes[1..], if i > 0 then i - 1 else 0);
    }
  }

  lemma DigitsDiffer(i: nat, j: nat)
    requires i < 16 && j < 16 && DIGITS[i] == DIGITS[j]
    ensures i == j
  {
  }

  /** So a parent is named by one hash only. */
  lemma HexInjective(a: seq<uint8>, b: seq<uint8>)
    requires Hex(a) == Hex(b)
    ensures a == b
  {
    if a != [] {
      HexDigits(a, 0);
    }
    if b != [] {
      HexDigits(b, 0);
    }
    forall i | 0 <= i < |a| ensures a[i] == b[i] {
      HexDigits(a, i);
      HexDigits(b, i);
      DigitsDiffer(a[i] / 16, b[i] / 16);
      DigitsDiffer(a[i] % 16, b[i] % 16);
    }
  }

  // ----- the order of `sort.Strings` -----

  predicate Before(a: Hash, b: Hash) {
    |b| > 0 && (|a| == 0 || a[0] < b[0] || (a[0] == b[0] && Before(a[1..], b[1..])))
  }

  lemma {:induction false} BeforeAsymmetric(a: Hash, b: Hash)
    requires Before(a, b)
    ensures !Before(b, a)
  {
    if |a| > 0 && a[0] == b[0] {
      BeforeAsymmetric(a[1..], b[1..]);
    }
  }

  lemma {:induction false} BeforeTotal(a: Hash, b: Hash)
    requires a != b
    ensures Before(a, b) || Before(b, a)
  {
    if |a| > 0 && |b| > 0 && a[0] == b[0] {
      assert a == [a[0]] + a[1..] && b == [b[0]] + b[1..];
      BeforeTotal(a[1..], b[1..]);
    }
  }

  lemma {:induction false} NotBeforeTransitive(a: Hash, b: Hash, c: Hash)
    requires !Before(b, a) && !Before(c, b)
    ensures !Before(c, a)
  {
    if |a| > 0 && |b| > 0 && |c| > 0 && a[0] == b[0] == c[0] {
      NotBeforeTransitive(a[1..], b[1..], c[1..]);
    }
  }

  lemma HashesOrdered(items: multiset<Hash>)
    ensures StrictWeakOrder(Before, items) && Separates(Before, items)
  {
    forall a, b | Before(a, b) ensures !Before(b, a) {
      BeforeAsymmetric(a, b);
    }
    forall a, b | a != b ensures Before(a, b) || Before(b, a) {
      BeforeTotal(a, b);
    }
    forall a, b, c | !Before(b, a) && !Before(c, b) ensures !Before(c, a) {
      NotBeforeTransitive(a, b, c);
    }
  }

  // ----- what a tip is -----

  predicate IsChild(blocks: map<Hash, Block>, child: Hash, parent: Hash) {
    child in blocks && blocks[child].prevHash != [] && Hex(blocks[child].prevHash) == parent
  }

  predicate HasChild(blocks: map<Hash, Block>, h: Hash) {
    exists child :: child in blocks && IsChild(blocks, child, h)
  }

  /** A block without a previous hash is nobody's child, and every other one the child of one hash. */
  lemma OneParent(blocks: map<Hash, Block>, child: Hash, parent: Hash)
    requires child in blocks
    ensures blocks[child].prevHash == [] ==> !IsChild(blocks, child, parent)
    ensures blocks[child].prevHash != [] ==> (IsChild(blocks, child, parent) <==> parent == Hex(blocks[child].prevHash))
  {
  }

  function Childless(blocks: map<Hash, Block>): set<Hash> {
    set h | h in blocks && !HasChild(blocks, h)
  }

  /** The set, each member once, in order. */
  ghost predicate Lists(tips: seq<Hash>, hashes: set<Hash>) {
    multiset(tips) == multiset(hashes) && Sorted(Before, tips)
  }

  /** There is one such list, so the order a map is walked in never shows. */
  lemma ListUnique(tips: seq<Hash>, others: seq<Hash>, hashes: set<Hash>)
    requires Lists(tips, hashes) && Lists(others, hashes)
    ensures tips == others
  {
    HashesOrdered(multiset(tips));
    SortedUnique(Before, tips, others);
  }

  // ----- the loops -----

  /** The hashes named as a parent; the walk over the map is in any order. */
  method ParentsOf(blocks: map<Hash, Block>) returns (isParent: set<Hash>)
    ensures forall h :: h in isParent <==> HasChild(blocks, h)
  {
    isParent := {};
    var left := blocks.Keys;
    while left != {}
      invariant left <= blocks.Keys
      invariant forall h :: h in isParent ==> HasChild(blocks, h)
      invariant forall child, h :: child in blocks.Keys - left && IsChild(blocks, child, h) ==> h in isParent
      decreases |left|
    {
      var k :| k in left;
      if |blocks[k].prevHash| > 0 {
        assert IsChild(blocks, k, Hex(blocks[k].prevHash));
        isParent := isParent + {Hex(blocks[k].prevHash)};
      }
      left := left - {k};
    }
  }

  method GetKnownTipsFromBlocks(blocks: map<Hash, Block>) returns (tips: seq<Hash>)
    ensures Lists(tips, Childless(blocks))
  {
    var isParent := ParentsOf(blocks);
    tips := [];
    var left := blocks.Keys;
    ghost var found: set<Hash> := {};
    while left != {}
      invariant left <= blocks.Keys && found == Childless(blocks) - left
      invariant multiset(tips) == multiset(found)
      decreases |left|
    {
      var h :| h in left;
      if h !in isParent {
        tips := tips + [h];
        found := found + {h};
      }
      left := left - {h};
    }
    assert found == Childless(blocks);
    HashesOrdered(multiset(tips));
    SortSorts(Before, tips);
    tips := Sort(Before, tips);
  }

  // ----- every block leads to a tip -----

  predicate HeightsGrow(blocks: map<Hash, Block>) {
    forall child, parent :: child in blocks && parent in blocks && IsChild(blocks, child, parent) ==>
      blocks[child].height > blocks[parent].height
  }

  /** A descent: each hash the parent of the next. */
  predicate Line(blocks: map<Hash, Block>, line: seq<Hash>) {
    && |line| > 0 && line[0] in blocks
    && forall i :: 0 < i < |line| ==> IsChild(blocks, line[i], line[i - 1])
  }

  lemma {:induction false} HighestBlock(blocks: map<Hash, Block>) returns (top: nat)
    ensures forall h :: h in blocks ==> blocks[h].height <= top
    decreases |blocks|
  {
    top := 0;
    if blocks != map[] {
      var h :| h in blocks;
      var rest := blocks - {h};
      assert |rest| < |blocks| by {
        assert rest.Keys == blocks.Keys - {h};
      }
      var below := HighestBlock(rest);
      top := if below < blocks[h].height then blocks[h].height else below;
      forall k | k in blocks ensures blocks[k].height <= top {
        assert k == h || (k in rest && rest[k] == blocks[k]);
      }
    }
  }

  lemma {:induction false} ClimbToTip(blocks: map<Hash, Block>, h: Hash, top: nat) returns (line: seq<Hash>)
    requires HeightsGrow(blocks) && h in blocks && forall k :: k in blocks ==> blocks[k].height <= top
    ensures Line(blocks, line) && line[0] == h && line[|line| - 1] in Childless(blocks)
    decreases top - blocks[h].height
  {
    if HasChild(blocks, h) {
      var child :| child in blocks && IsChild(blocks, child, h);
      var rest := ClimbToTip(blocks, child, top);
      line := [h] + rest;
      forall i | 0 < i < |line| ensures IsChild(blocks, line[i], line[i - 1]) {
        assert i > 1 ==> IsChild(blocks, rest[i - 1], rest[i - 2]);
      }
    } else {
      line := [h];
    }
  }

  /** Every block has a tip among its descendants or itself. */
  lemma EveryBlockHasTip(blocks: map<Hash, Block>, tips: seq<Hash>, h: Hash) returns (line: seq<Hash>)
    requires HeightsGrow(blocks) && h in blocks && Lists(tips, Childless(blocks))
    ensures Line(blocks, line) && line[0] == h && line[|line| - 1] in tips
  {
    var top := HighestBlock(blocks);
    line := ClimbToTip(blocks, h, top);
    assert line[|line| - 1] in multiset(tips);
  }

  /** So a map with a block in it has a tip. */
  lemma SomeTip(blocks: map<Hash, Block>, tips: seq<Hash>)
    requires HeightsGrow(blocks) && Lists(tips, Childless(blocks))
    ensures tips == [] <==> blocks == map[]
  {
    if blocks != map[] {
      var h :| h in blocks;
      var line := EveryBlockHasTip(blocks, tips, h);
    } else {
      assert Childless(blocks) == {};
      assert |tips| == |multiset(tips)| == 0;
    }
  }
}
