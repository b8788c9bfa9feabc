/**
  Duplicate-safe renaming, `get_unique_filename`: keep the name when it is
  free, otherwise try `base_1ext`, `base_2ext`, ... (base and ext from
  `os.path.splitext` of the ORIGINAL name) until one is free.

  `existing` is the set of names `n` for which
  `os.path.exists(os.path.join(UPLOAD_FOLDER, n))` holds.
 */
module UniqueName {
  import opened Text
  import opened PathSplit

  /** The k-th renamed candidate, `f"{base}_{k}{ext}"`. */
  function Candidate(name: string, k: nat): (r: string)
    ensures |r| == |name| + 1 + |Decimal(k)|
    ensures r[|SplitExt(name).0|] == '_'
  {
    SplitExt(name).0 + "_" + Decimal(k) + SplitExt(name).1
  }

  /** The k-th name the loop looks at: the name itself, then the candidates. */
  function Probe(name: string, k: nat): string {
    if k == 0 then name else Candidate(name, k)
  }

  /** Different probe numbers give different names. */
  lemma ProbeInjective(name: string, i: nat, j: nat)
    requires i != j
    ensures Probe(name, i) != Probe(name, j)
  {
    var (b, e) := SplitExt(name);
    if i > 0 && j > 0 && Probe(name, i) == Probe(name, j) {
      var n := |b| + 1;
      assert |Decimal(i)| == |Decimal(j)|;
      assert Probe(name, i)[n..n + |Decimal(i)|] == Decimal(i);
      assert Probe(name, j)[n..n + |Decimal(j)|] == Decimal(j);
      DecimalInjective(i, j);
    }
  }

  /** The set of the first n probes. */
  function Probes(name: string, n: nat): set<string> {
    if n == 0 then {} else Probes(name, n - 1) + {Probe(name, n - 1)}
  }

  /** A later probe is none of the earlier ones. */
  lemma {:induction false} LaterProbeIsNew(name: string, n: nat, k: nat)
    requires k >= n
    ensures Probe(name, k) !in Probes(name, n)
  {
    if n > 0 {
      ProbeInjective(name, n - 1, k);
      LaterProbeIsNew(name, n - 1, k);
    }
  }

  lemma {:induction false} ProbesCount(name: string, n: nat)
    ensures |Probes(name, n)| == n
  {
    if n > 0 {
      ProbesCount(name, n - 1);
      LaterProbeIsNew(name, n - 1, n - 1);
    }
  }

  lemma {:induction false} ProbesWithin(existing: set<string>, name: string, n: nat)
    requires forall j :: 0 <= j < n ==> Probe(name, j) in existing
    ensures Probes(name, n) <= existing
  {
    if n > 0 {
      ProbesWithin(existing, name, n - 1);
    }
  }

  lemma {:induction false} SubsetSize<T>(a: set<T>, b: set<T>)
    requires a <= b
    ensures |a| <= |b|
  {
    if a != {} {
      var x :| x in a;
      SubsetSize(a - {x}, b - {x});
    }
  }

  /**
    Pigeonhole: if the first n probes are all taken, there are at least n
    existing names. So a free probe turns up within |existing| + 1 tries.
   */
  lemma ProbesBound(existing: set<string>, name: string, n: nat)
    requires forall j :: 0 <= j < n ==> Probe(name, j) in existing
    ensures n <= |existing|
  {
    ProbesWithin(existing, name, n);
    ProbesCount(name, n);
    SubsetSize(Probes(name, n), existing);
  }

  /** The first free probe from number k on, given that those before k are taken. */
  function FreeNameFrom(existing: set<string>, name: string, k: nat): (r: string)
    requires forall j :: 0 <= j < k ==> Probe(name, j) in existing
    ensures r !in existing
    ensures exists i :: k <= i <= |existing| && r == Probe(name, i)
                     && forall j :: 0 <= j < i ==> Probe(name, j) in existing
    decreases |existing| - k
  {
    ProbesBound(existing, name, k);
    if Probe(name, k) !in existing then Probe(name, k)
    else
      ProbesBound(existing, name, k + 1);
      FreeNameFrom(existing, name, k + 1)
  }

  /**
    The name `get_unique_filename` returns: the name itself when free,
    otherwise the candidate with the smallest free counter.
   */
  function FreeName(existing: set<string>, name: string): (r: string)
    ensures r !in existing
    ensures name !in existing ==> r == name
  {
    FreeNameFrom(existing, name, 0)
  }

  /** The result is the first free probe, found within |existing| + 1 tries. */
  lemma FreeNameIsProbe(existing: set<string>, name: string)
    ensures exists i :: 0 <= i <= |existing| && FreeName(existing, name) == Probe(name, i)
                     && forall j :: 0 <= j < i ==> Probe(name, j) in existing
  {
    assert FreeName(existing, name) == FreeNameFrom(existing, name, 0);
  }

  /** No other probe is both free and preceded only by taken ones. */
  lemma FreeNameIsFirstFree(existing: set<string>, name: string, i: nat)
    requires Probe(name, i) !in existing
    requires forall j :: 0 <= j < i ==> Probe(name, j) in existing
    ensures FreeName(existing, name) == Probe(name, i)
  {
    var r := FreeName(existing, name);
    FreeNameIsProbe(existing, name);
    var i0 :| 0 <= i0 <= |existing| && r == Probe(name, i0)
              && forall j :: 0 <= j < i0 ==> Probe(name, j) in existing;
    assert !(i < i0) && !(i0 < i);
  }

  /** A renamed result differs from the original name and from every other candidate. */
  lemma CandidateIsNew(name: string, k: nat)
    requires k >= 1
    ensures Candidate(name, k) != name
    ensures |Candidate(name, k)| > |name|
  {
  }

  /**
    Renaming keeps the original extension, and the counter never piles up:
    the result splits into the ORIGINAL base with `_k` appended.
   */
  lemma CandidateKeepsExtension(name: string, k: nat)
    requires k >= 1
    ensures SplitExt(Candidate(name, k)) == (SplitExt(name).0 + "_" + Decimal(k), SplitExt(name).1)
  {
    var d := Decimal(k);
    DecimalHasNoSeparator(k);
    var t := "_" + d;
    assert '.' !in t && '/' !in t;
    var (b, e) := SplitExt(name);
    assert b + "_" + d == b + t;
    assert Candidate(name, k) == b + t + e;
    SplitExtInsertBeforeExt(name, t);
  }

  lemma FreeNameKeepsExtension(existing: set<string>, name: string)
    ensures SplitExt(FreeName(existing, name)).1 == SplitExt(name).1
  {
    FreeNameIsProbe(existing, name);
    var i :| 0 <= i <= |existing| && FreeName(existing, name) == Probe(name, i)
             && forall j :: 0 <= j < i ==> Probe(name, j) in existing;
    if i > 0 {
      CandidateKeepsExtension(name, i);
    }
  }

  /** `get_unique_filename`, the probing loop. */
  method UniqueFilename(existing: set<string>, filename: string) returns (newFilename: string)
    ensures newFilename == FreeName(existing, filename)
  {
    var base, ext := SplitExt(filename).0, SplitExt(filename).1;
    var counter: nat := 1;
    newFilename := filename;
    while newFilename in existing
      invariant 1 <= counter <= |existing| + 1
      invariant newFilename == Probe(filename, counter - 1)
      invariant forall j :: 0 <= j < counter - 1 ==> Probe(filename, j) in existing
      decreases |existing| + 1 - counter
    {
      ProbesBound(existing, filename, counter);
      newFilename := base + "_" + Decimal(counter) + ext;
      counter := counter + 1;
    }
    FreeNameIsFirstFree(existing, filename, counter - 1);
  }

  lemma SplitExample()
    ensures SplitExt("a.txt") == ("a", ".txt")
  {
    assert RFind("a.txt", '/') == -1;
    RFindAt("a.txt", '.', 1);
    assert "a.txt"[0] != '.';
    SplitExtAt("a.txt", 1);
    assert "a.txt"[..1] == "a" && "a.txt"[1..] == ".txt";
  }

  /** A second upload of `a.txt` becomes `a_1.txt`. */
  lemma RenameExample(existing: set<string>)
    requires "a.txt" in existing && "a_1.txt" !in existing
    ensures FreeName(existing, "a.txt") == "a_1.txt"
  {
    SplitExample();
    assert Decimal(1) == "1";
    assert Probe("a.txt", 1) == "a_1.txt";
    FreeNameIsFirstFree(existing, "a.txt", 1);
  }

  /** With `a.txt` and `a_1.txt` taken, the next is `a_2.txt`, not `a_1_1.txt`. */
  lemma SecondRenameExample()
    ensures FreeName({"a.txt", "a_1.txt"}, "a.txt") == "a_2.txt"
  {
    SplitExample();
    assert Decimal(1) == "1" && Decimal(2) == "2";
    assert Probe("a.txt", 1) == "a_1.txt";
    assert Probe("a.txt", 2) == "a_2.txt";
    FreeNameIsFirstFree({"a.txt", "a_1.txt"}, "a.txt", 2);
  }
}
