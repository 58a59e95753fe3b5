/**
 The two scripts' constant tables checked against each other and against the
 reorganizer's run: the mapping's destinations are the combiner's module
 order, every destination lands in a directory the directory phase creates,
 and from a clean start the script's own `main` moves every file it finds.

 Facts about individual literal paths are settled one per lemma: the solver's
 cost for `Parent` of a literal grows quickly with the number of literals in
 one proof.
 */
module Tables {
  import opened Paths
  import opened FileSystem
  import opened Combiner
  import opened Reorganizer

  /** The parent of a path spelled as a directory, a '/', and a flat name. */
  lemma ParentOfSpelled(p: Path, dir: Path, name: Path)
    requires '/' !in name && p == dir + "/" + name
    ensures Parent(p) == dir
  {
    JoinSplits(dir, name);
  }

  lemma ParentOfTarget0()
    ensures Parent(FileMapping[0].1) == "src/config"
  {
    ParentOfSpelled(FileMapping[0].1, "src/config", "config.gs");
  }

  lemma ParentOfTarget1()
    ensures Parent(FileMapping[1].1) == "src/core"
  {
    ParentOfSpelled(FileMapping[1].1, "src/core", "menu.gs");
  }

  lemma ParentOfTarget2()
    ensures Parent(FileMapping[2].1) == "src/core"
  {
    ParentOfSpelled(FileMapping[2].1, "src/core", "protection.gs");
  }

  lemma ParentOfTarget3()
    ensures Parent(FileMapping[3].1) == "src/core"
  {
    ParentOfSpelled(FileMapping[3].1, "src/core", "utilities.gs");
  }

  lemma ParentOfTarget4()
    ensures Parent(FileMapping[4].1) == "src/sheets/basic"
  {
    ParentOfSpelled(FileMapping[4].1, "src/sheets/basic", "instructions.gs");
  }

  lemma ParentOfTarget5()
    ensures Parent(FileMapping[5].1) == "src/sheets/basic"
  {
    ParentOfSpelled(FileMapping[5].1, "src/sheets/basic", "dataTables.gs");
  }

  lemma ParentOfTarget6()
    ensures Parent(FileMapping[6].1) == "src/sheets/basic"
  {
    ParentOfSpelled(FileMapping[6].1, "src/sheets/basic", "tripSettings.gs");
  }

  lemma ParentOfTarget7()
    ensures Parent(FileMapping[7].1) == "src/sheets/basic"
  {
    ParentOfSpelled(FileMapping[7].1, "src/sheets/basic", "lodging.gs");
  }

  lemma ParentOfTarget8()
    ensures Parent(FileMapping[8].1) == "src/sheets/advanced"
  {
    ParentOfSpelled(FileMapping[8].1, "src/sheets/advanced", "transportation.gs");
  }

  lemma ParentOfTarget9()
    ensures Parent(FileMapping[9].1) == "src/sheets/advanced"
  {
    ParentOfSpelled(FileMapping[9].1, "src/sheets/advanced", "activities.gs");
  }

  lemma ParentOfTarget10()
    ensures Parent(FileMapping[10].1) == "src/sheets/advanced"
  {
    ParentOfSpelled(FileMapping[10].1, "src/sheets/advanced", "dashboard.gs");
  }

  lemma ParentOfTarget11()
    ensures Parent(FileMapping[11].1) == "src"
  {
    ParentOfSpelled(FileMapping[11].1, "src", "main.gs");
  }

  /** "src", the parent of the entry point, is created as the ancestor of
      the first listed directory. */
  lemma SrcIsCreated()
    ensures "src" in Ancestry(TargetDirectories)
  {
    var ds := TargetDirectories;
    assert Ancestry(ds) == Chain(ds[0]) + Ancestry(ds[1..]);
    ChainOfConfig();
  }

  lemma ChainOfConfig()
    ensures Chain("src/config") == {"src/config", "src"}
  {
    ParentOfSpelled("src/config", "src", "config");
    assert Parent("src") == "";
  }

  /** Every destination's parent is one of the listed directories or an
      ancestor the recursive `mkdir` creates, so every rename has a directory
      to land in. */
  lemma TargetParentsCovered()
    ensures forall i :: 0 <= i < |FileMapping| ==> Parent(FileMapping[i].1) in Ancestry(TargetDirectories)
  {
    forall i | 0 <= i < |FileMapping|
      ensures Parent(FileMapping[i].1) in Ancestry(TargetDirectories)
    {
      if i == 0 { ParentOfTarget0(); }
      else if i == 1 { ParentOfTarget1(); }
      else if i == 2 { ParentOfTarget2(); }
      else if i == 3 { ParentOfTarget3(); }
      else if i == 4 { ParentOfTarget4(); }
      else if i == 5 { ParentOfTarget5(); }
      else if i == 6 { ParentOfTarget6(); }
      else if i == 7 { ParentOfTarget7(); }
      else if i == 8 { ParentOfTarget8(); }
      else if i == 9 { ParentOfTarget9(); }
      else if i == 10 { ParentOfTarget10(); }
      else { ParentOfTarget11(); SrcIsCreated(); }
    }
  }

  /** Everything the directory phase may create is a non-empty prefix of a
      listed directory. */
  lemma {:induction false} AncestryPrefixes(ds: seq<Path>, x: Path)
    requires x in Ancestry(ds)
    ensures exists k :: 0 <= k < |ds| && x <= ds[k] && x != ""
    decreases |ds|
  {
    if x !in Chain(ds[0]) {
      AncestryPrefixes(ds[1..], x);
      var k :| 0 <= k < |ds[1..]| && x <= ds[1..][k] && x != "";
      assert x <= ds[k + 1];
    }
  }

  /** The listed directories start with 's' and have no '.'. */
  lemma TargetDirectoriesShape()
    ensures forall k :: 0 <= k < |TargetDirectories| ==>
      TargetDirectories[k] != "" && TargetDirectories[k][0] == 's' && '.' !in TargetDirectories[k]
  {
  }

  /** A leading character and the absence of '.' pass from the listed
      directories to everything their recursive `mkdir` creates. */
  lemma AncestryKeepsShape(ds: seq<Path>, c: char, x: Path)
    requires forall k :: 0 <= k < |ds| ==> ds[k] != "" && ds[k][0] == c && '.' !in ds[k]
    requires x in Ancestry(ds)
    ensures x != "" && x[0] == c && '.' !in x
  {
    AncestryPrefixes(ds, x);
    var k :| 0 <= k < |ds| && x <= ds[k] && x != "";
    assert x == ds[k][..|x|];
  }

  /** So does everything the directory phase creates: no such directory can
      be a backup directory or a file of the mapping. */
  lemma CreatedShape()
    ensures forall x :: x in Ancestry(TargetDirectories) ==> x != "" && x[0] == 's' && '.' !in x
  {
    TargetDirectoriesShape();
    forall x | x in Ancestry(TargetDirectories)
      ensures x != "" && x[0] == 's' && '.' !in x
    {
      AncestryKeepsShape(TargetDirectories, 's', x);
    }
  }

  /** The sources are pairwise different. */
  lemma SourcesDistinct()
    ensures forall i, j :: 0 <= i < j < |FileMapping| ==> FileMapping[i].0 != FileMapping[j].0
  {
  }

  /** The destinations are pairwise different. */
  lemma TargetsDistinct()
    ensures forall i, j :: 0 <= i < j < |FileMapping| ==> FileMapping[i].1 != FileMapping[j].1
  {
  }

  /** No source is a destination. */
  lemma SourcesAreNotTargets()
    ensures forall i, j :: 0 <= i < |FileMapping| && 0 <= j < |FileMapping| ==> FileMapping[i].0 != FileMapping[j].1
  {
  }

  /** The mapping has twelve entries and no two of them interfere. */
  lemma FileMappingIndependent()
    ensures |FileMapping| == 12
    ensures Independent(FileMapping)
  {
    SourcesDistinct();
    TargetsDistinct();
    SourcesAreNotTargets();
  }

  /** Every source is a flat file name. */
  lemma SourcesFlat()
    ensures forall i :: 0 <= i < |FileMapping| ==> '/' !in FileMapping[i].0
  {
  }

  /** Every path of the mapping has an extension. */
  lemma FileMappingDotted()
    ensures forall i :: 0 <= i < |FileMapping| ==> '.' in FileMapping[i].0 && '.' in FileMapping[i].1
  {
  }

  /** The mapping's destinations, in declaration order, are the combiner's
      module order with its second and fourth entries swapped: the
      reorganizer produces exactly the files the combiner reads, each once. */
  lemma TargetsAreModuleOrder()
    ensures Targets(FileMapping) == ModuleOrder[1 := ModuleOrder[3]][3 := ModuleOrder[1]]
    ensures multiset(Targets(FileMapping)) == multiset(ModuleOrder)
  {
    var t := Targets(FileMapping);
    assert t == ModuleOrder[1 := ModuleOrder[3]][3 := ModuleOrder[1]];
  }

  /** For any timestamp without '/', the script's tables keep the backup, the
      created directories and the moved files apart. */
  lemma MainSeparated(timestamp: string)
    requires '/' !in timestamp
    ensures Separated(timestamp, FileMapping, TargetDirectories)
  {
    var name := BackupName(timestamp);
    FileMappingIndependent();
    SourcesFlat();
    FileMappingDotted();
    CreatedShape();
    TargetParentsCovered();
    assert name[0] == 'b' by {
      assert name[..7] == "backup-";
    }
  }

  /** The hypotheses of a clean run of `main()`, in terms of the starting
      state alone, meet the generic clean-start condition. */
  lemma MainCleanStart(fs: FileSystem, timestamp: string)
    requires Valid(fs) && fs.faulty == {}
    requires '/' !in timestamp && !Exists(fs, BackupName(timestamp))
    requires Ancestry(TargetDirectories) !! fs.files.Keys
    requires forall i :: 0 <= i < |FileMapping| ==> FileMapping[i].0 !in fs.dirs && FileMapping[i].1 !in fs.dirs
    ensures CleanStart(fs, timestamp, FileMapping, TargetDirectories)
  {
    var name := BackupName(timestamp);
    MainSeparated(timestamp);
    FileMappingDotted();
    CreatedShape();
    TargetParentsCovered();
    TargetDirectoriesShape();
    assert name[0] == 'b' by {
      assert name[..7] == "backup-";
    }
  }

  /** The clean-start theorem for the script's own tables: `main()`
      finishes and moves exactly the sources that exist; the others are
      reported missing. */
  lemma MainCleanOutcomes(fs: FileSystem, timestamp: string)
    requires CleanStart(fs, timestamp, FileMapping, TargetDirectories)
    ensures Main(fs, timestamp).Success?
    ensures forall i :: 0 <= i < |FileMapping| ==>
      Main(fs, timestamp).value.reports[i].outcome == if FileMapping[i].0 in fs.files then Moved else SourceMissing
  {
    ReorganizeClean(fs, timestamp, FileMapping, TargetDirectories);
  }

  /** From a clean start, `main()` finishes and moves exactly the sources
      that exist; the others are reported missing. */
  lemma MainCleanRun(fs: FileSystem, timestamp: string)
    requires Valid(fs) && fs.faulty == {}
    requires '/' !in timestamp && !Exists(fs, BackupName(timestamp))
    requires Ancestry(TargetDirectories) !! fs.files.Keys
    requires forall i :: 0 <= i < |FileMapping| ==> FileMapping[i].0 !in fs.dirs && FileMapping[i].1 !in fs.dirs
    ensures Main(fs, timestamp).Success?
    ensures forall i :: 0 <= i < |FileMapping| ==>
      Main(fs, timestamp).value.reports[i].outcome == if FileMapping[i].0 in fs.files then Moved else SourceMissing
  {
    MainCleanStart(fs, timestamp);
    MainCleanOutcomes(fs, timestamp);
  }

  /** Whenever `main()` finishes, every moved file has its original content
      at its destination and is gone from its source, and the backup keeps
      a copy of every source that existed. */
  lemma MainFinished(fs: FileSystem, timestamp: string)
    requires '/' !in timestamp
    ensures var r := Main(fs, timestamp);
      r.Success? ==> forall i :: 0 <= i < |FileMapping| && r.value.reports[i].outcome == Moved ==>
        && FileMapping[i].0 in fs.files
        && FileMapping[i].1 in r.value.fs.files && r.value.fs.files[FileMapping[i].1] == fs.files[FileMapping[i].0]
        && FileMapping[i].0 !in r.value.fs.files
    ensures var r := Main(fs, timestamp);
      r.Success? ==> HasBackupOf(fs, r.value.fs, BackupName(timestamp), Sources(FileMapping))
  {
    MainSeparated(timestamp);
    ReorganizeMoves(fs, timestamp, FileMapping, TargetDirectories);
    ReorganizeKeepsBackup(fs, timestamp, FileMapping, TargetDirectories);
  }
}
