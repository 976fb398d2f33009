/** A concrete node with two blocks on top of one root, and any transactions in them. */
module TwoBranches {
  import opened ByteKeys
  import opened Chain
  import opened Indexing
  import opened BlockStore

  function Name(b: byte): Hash {
    [b] + Zeros(31)
  }

  const ROOT: Hash := Name(1)
  const LEFT: Hash := Name(2)
  const RIGHT: Hash := Name(3)

  /** A header that carries its own hash. */
  function Carrying(hash: Hash, prev: Hash): Header {
    Header(Zeros(4), prev, hash + Zeros(12))
  }

  function Carried(h: Header): Hash {
    h.trailer[..HASH_LEN]
  }

  function Branches(): Tree {
    Tree(Carried,
         map[ROOT := Carrying(ROOT, NULL_HASH), LEFT := Carrying(LEFT, ROOT), RIGHT := Carrying(RIGHT, ROOT)],
         map[ROOT := 0, LEFT := 1, RIGHT := 1])
  }

  function BranchArchive(root: seq<Tx>, left: seq<Tx>, right: seq<Tx>): Archive {
    Archive(Branches(), map[ROOT := root, LEFT := left, RIGHT := right])
  }

  lemma NamesDiffer()
    ensures ROOT != LEFT && LEFT != RIGHT && RIGHT != ROOT
    ensures NULL_HASH != ROOT && NULL_HASH != LEFT && NULL_HASH != RIGHT
  {
    assert ROOT[0] == 1 && LEFT[0] == 2 && RIGHT[0] == 3 && NULL_HASH[0] == 0;
  }

  lemma CarriedBack(hash: Hash, prev: Hash)
    ensures Carried(Carrying(hash, prev)) == hash
  {
    hide Zeros;
    assert (hash + Zeros(12))[..HASH_LEN] == hash;
  }

  lemma BranchesValid()
    ensures Branches().Valid()
  {
    NamesDiffer();
    hide Name;
    hide Zeros;
    var t := Branches();
    CarriedBack(ROOT, NULL_HASH);
    CarriedBack(LEFT, ROOT);
    CarriedBack(RIGHT, ROOT);
    hide Carried;
    assert t.headers.Keys == {ROOT, LEFT, RIGHT};
    assert t.ParentOk(ROOT) && t.ParentOk(LEFT) && t.ParentOk(RIGHT);
  }

  lemma BranchPaths()
    ensures Branches().Valid()
    ensures Branches().PathTo(ROOT) == [Branches().Entry(ROOT)]
    ensures Branches().PathTo(LEFT) == [Branches().Entry(ROOT), Branches().Entry(LEFT)]
    ensures Branches().PathTo(RIGHT) == [Branches().Entry(ROOT), Branches().Entry(RIGHT)]
    ensures !Branches().OnPath(LEFT, RIGHT) && !Branches().OnPath(RIGHT, LEFT)
  {
    NamesDiffer();
    hide Name;
    hide Zeros;
    BranchesValid();
    var t := Branches();
    assert t.PathTo(NULL_HASH) == [];
    assert t.PathTo(ROOT) == t.PathTo(NULL_HASH) + [t.Entry(ROOT)];
    assert t.PathTo(LEFT) == t.PathTo(ROOT) + [t.Entry(LEFT)];
    assert t.PathTo(RIGHT) == t.PathTo(ROOT) + [t.Entry(RIGHT)];
    assert t.PathTo(LEFT)[1] != t.PathTo(RIGHT)[1];
  }

  /** The root is below every block; otherwise only a block itself is on its path. */
  lemma BranchOnPath(h: Hash, tip: Hash)
    requires h in Branches().headers && tip in Branches().headers
    ensures Branches().Valid()
    ensures Branches().OnPath(h, tip) <==> h == ROOT || h == tip
  {
    NamesDiffer();
    hide Name;
    hide Zeros;
    BranchPaths();
    assert Branches().headers.Keys == {ROOT, LEFT, RIGHT};
    assert Branches().PathTo(ROOT) <= Branches().PathTo(LEFT) && Branches().PathTo(ROOT) <= Branches().PathTo(RIGHT);
  }
}
