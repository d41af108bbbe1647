/** The register directory of the hand: symbolic names of holding-register
    blocks and the base address of each, plus the groups of names that the
    semantic accessors accept. */
module Registers {

  /** Base holding-register address of every named block, fixed for the
      lifetime of the program. */
  const RegDict: map<string, nat> := map[
    "ID" := 1000,
    "baudrate" := 1001,
    "clearErr" := 1004,
    "forceClb" := 1009,
    "angleSet" := 1486,
    "forceSet" := 1498,
    "speedSet" := 1522,
    "angleAct" := 1546,
    "forceAct" := 1582,
    "errCode" := 1606,
    "statusCode" := 1612,
    "temp" := 1618,
    "actionSeq" := 2320,
    "actionRun" := 2322,
    "index" := 4320
  ]

  /** Names that `write6` accepts: the three actuator set-point vectors. */
  const WriteNames: set<string> := {"angleSet", "forceSet", "speedSet"}

  /** Names that `read6` reads as a vector of six raw registers. */
  const VectorNames: set<string> := {"angleSet", "forceSet", "speedSet", "angleAct", "forceAct"}

  /** Names that `read6` reads as three registers of two bytes each. */
  const StatusNames: set<string> := {"errCode", "statusCode", "temp"}

  /** The only name that `read96` accepts: the tactile block. */
  const GridName: string := "index"

  /** Number of registers each accessor reads or writes. */
  const VectorCount: nat := 6
  const StatusCount: nat := 3
  const GridCount: nat := 80

  /** The number of registers the accessors move for a name they accept. */
  function BlockSize(name: string): (k: nat)
    ensures name in VectorNames ==> k == 6
    ensures name in StatusNames ==> k == 3
    ensures name == GridName ==> k == 80
  {
    if name in VectorNames then VectorCount
    else if name in StatusNames then StatusCount
    else if name == GridName then GridCount
    else 0
  }

  /** The directory's names in source order. */
  const Names: seq<string> := ["ID", "baudrate", "clearErr", "forceClb", "angleSet", "forceSet",
                               "speedSet", "angleAct", "forceAct", "errCode", "statusCode", "temp",
                               "actionSeq", "actionRun", "index"]

  /** A sequence without repeated elements has as many distinct elements as
      it has entries. */
  lemma {:induction false} DistinctCard(s: seq<string>)
    requires forall i, j :: 0 <= i < j < |s| ==> s[i] != s[j]
    ensures |set x | x in s| == |s|
  {
    if s != [] {
      DistinctCard(s[1..]);
      assert (set x | x in s) == {s[0]} + (set x | x in s[1..]);
      assert s[0] !in (set x | x in s[1..]);
    }
  }

  /** The directory holds fifteen distinct names. */
  lemma DirectorySize()
    ensures |RegDict| == 15
  {
    KeysAreNames();
    NamesDistinct();
    DistinctCard(Names);
    assert |RegDict| == |RegDict.Keys|;
  }

  /** Every base address fits a 16-bit Modbus register address. */
  lemma AddressesFit()
    ensures forall name :: name in RegDict ==> RegDict[name] < 0x1_0000
  {
  }

  /** The directory's keys are exactly the listed names. */
  lemma KeysAreNames()
    ensures RegDict.Keys == set x | x in Names
  {
  }

  /** The listed names are pairwise different. */
  lemma NamesDistinct()
    ensures forall i, j :: 0 <= i < j < |Names| ==> Names[i] != Names[j]
  {
  }

  /** The base addresses of the blocks the accessors move: the three
      set-point vectors, the two actual-value vectors, the three status
      triples and the tactile block. */
  lemma AccessorAddresses()
    ensures RegDict["angleSet"] == 1486 && RegDict["forceSet"] == 1498 && RegDict["speedSet"] == 1522
    ensures RegDict["angleAct"] == 1546 && RegDict["forceAct"] == 1582
    ensures RegDict["errCode"] == 1606 && RegDict["statusCode"] == 1612 && RegDict["temp"] == 1618
    ensures RegDict[GridName] == 4320
  {
  }

  /** Every name an accessor accepts is in the directory, so the lookup of
      its base address never fails; the write names are a subset of the
      vector names, and the three accessor groups do not share a name. */
  lemma AccessorNamesRegistered()
    ensures WriteNames <= VectorNames
    ensures VectorNames <= RegDict.Keys && StatusNames <= RegDict.Keys && GridName in RegDict
    ensures VectorNames !! StatusNames
    ensures GridName !in VectorNames && GridName !in StatusNames
  {
  }

  /** The blocks that the accessors read never overlap: no register is
      reported under two different names. */
  lemma AccessorBlocksDisjoint(a: string, b: string)
    requires a in VectorNames + StatusNames + {GridName}
    requires b in VectorNames + StatusNames + {GridName}
    requires a != b
    ensures RegDict[a] + BlockSize(a) <= RegDict[b] || RegDict[b] + BlockSize(b) <= RegDict[a]
  {
  }
}
