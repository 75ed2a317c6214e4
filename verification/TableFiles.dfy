/** The names of table files (go/pkg/lsm/engine.go). A name is made of a level and a number; every flush and
    every compaction takes the next number, and OpenEngine starts the numbers at the count of the files it
    finds. A writer that meets its name in the directory truncates that file. */
module TableFiles {
  datatype Level = L0 | L1

  datatype Name = Name(level: Level, number: nat)

  datatype Dir = Dir(files: set<Name>, last: nat)

  datatype Step =
    | Create(level: Level)   // a flush, or a compaction that has something to write
    | Skip                   // a compaction that has nothing to write
    | Delete(name: Name)     // CleanOldFiles

  function Next(d: Dir, step: Step): Dir
  {
    match step
    case Create(level) => Dir(d.files + {Name(level, d.last + 1)}, d.last + 1)
    case Skip => d.(last := d.last + 1)
    case Delete(name) => d.(files := d.files - {name})
  }

  function Run(d: Dir, steps: seq<Step>): Dir
  {
    if steps == [] then d else Next(Run(d, steps[..|steps| - 1]), steps[|steps| - 1])
  }

  /** NewSSTableWriter opens a file that is there already. */
  predicate Overwrites(d: Dir, step: Step) { step.Create? && Name(step.level, d.last + 1) in d.files }

  /** No flush or compaction, however many follow, meets a file under its own name. */
  ghost predicate NeverOverwrites(d: Dir)
  {
    forall steps, step :: !Overwrites(Run(d, steps), step)
  }

  /** loadExistingSSTables. */
  function Opened(files: set<Name>): Dir { Dir(files, |files|) }

  predicate Numbered(d: Dir) { forall f :: f in d.files ==> f.number <= d.last }

  lemma {:induction false} RunKeepsNumbers(d: Dir, steps: seq<Step>)
    requires Numbered(d)
    ensures Numbered(Run(d, steps))
  {
    if steps != [] {
      RunKeepsNumbers(d, steps[..|steps| - 1]);
    }
  }

  /** How many of the steps take a number: all but the removals. */
  function Numbers(steps: seq<Step>): nat
  {
    if steps == [] then 0 else Numbers(steps[..|steps| - 1]) + if steps[|steps| - 1].Delete? then 0 else 1
  }

  /** Every flush and every compaction takes a number of its own, even one that writes nothing. */
  lemma {:induction false} NumbersAreTaken(d: Dir, steps: seq<Step>)
    ensures Run(d, steps).last == d.last + Numbers(steps)
    ensures forall f :: f in Run(d, steps).files ==> f in d.files || d.last < f.number <= d.last + Numbers(steps)
  {
    if steps != [] {
      NumbersAreTaken(d, steps[..|steps| - 1]);
    }
  }

  /** n flushes. */
  function Flushes(n: nat): seq<Step> { if n == 0 then [] else Flushes(n - 1) + [Create(L0)] }

  lemma {:induction false} RunFlushes(d: Dir, n: nat)
    ensures var e := Run(d, Flushes(n)); e.last == d.last + n && d.files <= e.files
  {
    if n > 0 {
      RunFlushes(d, n - 1);
      assert Flushes(n)[..|Flushes(n)| - 1] == Flushes(n - 1);
    }
  }

  /** That is so exactly when no number in the directory is above the counter. */
  lemma NeverOverwritesExact(d: Dir)
    ensures NeverOverwrites(d) <==> Numbered(d)
  {
    if Numbered(d) {
      forall steps, step ensures !Overwrites(Run(d, steps), step) {
        RunKeepsNumbers(d, steps);
      }
    } else {
      var f :| f in d.files && f.number > d.last;
      var n := f.number - d.last - 1;
      RunFlushes(d, n);
      assert Overwrites(Run(d, Flushes(n)), Create(f.level));
    }
  }

  /** So an engine that opens is safe from overwriting its files exactly when none of their numbers is
      greater than the count of the files; one that starts in an empty directory always is. */
  lemma OpenedExact(files: set<Name>)
    ensures NeverOverwrites(Opened(files)) <==> forall f :: f in files ==> f.number <= |files|
    ensures NeverOverwrites(Opened({}))
  {
    NeverOverwritesExact(Opened(files));
    NeverOverwritesExact(Opened({}));
  }

  /** Two flushes, a compaction and its cleaning leave one file, whose number is 3. The engine that opens
      over it flushes once and compacts: the output takes the name of its own input, and the cleaning of
      the inputs then removes it. */
  lemma RestartLosesTables() returns (left: set<Name>)
    ensures left == Run(Opened({}),
                        [Create(L0), Create(L0), Create(L1), Delete(Name(L0, 1)), Delete(Name(L0, 2))]).files
    ensures left == {Name(L1, 3)}
    ensures Overwrites(Run(Opened(left), [Create(L0)]), Create(L1))
    ensures Run(Opened(left), [Create(L0), Create(L1), Delete(Name(L1, 3)), Delete(Name(L0, 2))]).files == {}
  {
    left := {Name(L1, 3)};
    var d := Opened({});
    RunFive(d, Create(L0), Create(L0), Create(L1), Delete(Name(L0, 1)), Delete(Name(L0, 2)));
    var e := Opened(left);
    RunFive(e, Create(L0), Create(L1), Delete(Name(L1, 3)), Delete(Name(L0, 2)), Skip);
  }

  lemma RunFive(d: Dir, a: Step, b: Step, x: Step, y: Step, z: Step)
    ensures Run(d, [a]) == Next(d, a)
    ensures Run(d, [a, b, x, y]) == Next(Next(Next(Next(d, a), b), x), y)
    ensures Run(d, [a, b, x, y, z]) == Next(Next(Next(Next(Next(d, a), b), x), y), z)
  {
    hide Next;
    assert [a][..0] == [] && [a, b][..1] == [a] && [a, b, x][..2] == [a, b];
    assert [a, b, x, y][..3] == [a, b, x] && [a, b, x, y, z][..4] == [a, b, x, y];
    assert Run(d, [a]) == Next(Run(d, []), a) && Run(d, [a, b]) == Next(Run(d, [a]), b);
    assert Run(d, [a, b, x]) == Next(Run(d, [a, b]), x);
  }
}
