/**
 `vibs_from_orca_log`: the imaginary modes of one Orca log are numbered from
 a fixed offset, one trajectory file name is derived per index, one movie per
 trajectory, and the three sequences are zipped by position with the
 parser's frequencies into `ImgVib` records.
 */
module Vibs {
  import opened Decimal
  import opened Paths
  import opened Video

  /** Index of the first imaginary mode, assuming a non-linear molecule. */
  const FirstImaginaryIndex: nat := 6

  /**
   What the Orca log parser supplies: its `fn` and its imaginary
   frequencies, in order. Frequencies are kept opaque.
   */
  datatype OrcaLog<V> = OrcaLog(fn: string, imgVibFreqs: seq<V>)

  /** One imaginary mode: log name, mode index, frequency and movie path. */
  datatype ImgVib<V> = ImgVib(fn: string, index: nat, value: V, movie: string)

  predicate Distinct<T(==)>(s: seq<T>) {
    forall i, j :: 0 <= i < j < |s| ==> s[i] != s[j]
  }

  function Min(a: int, b: int): int {
    if a <= b then a else b
  }

  /** Python's `range(lo, hi)` over non-negative bounds. */
  function Range(lo: nat, hi: nat): (r: seq<nat>)
    ensures |r| == if lo < hi then hi - lo else 0
    ensures forall k :: 0 <= k < |r| ==> r[k] == lo + k
    decreases hi - lo
  {
    if lo >= hi then [] else [lo] + Range(lo + 1, hi)
  }

  /**
   The mode indices of a log with `n` imaginary frequencies: `n` consecutive
   integers starting at `FirstImaginaryIndex`, strictly ascending.
   */
  function IndexRange(n: nat): (r: seq<nat>)
    ensures |r| == n
    ensures forall k :: 0 <= k < n ==> r[k] == FirstImaginaryIndex + k
    ensures forall i, j :: 0 <= i < j < n ==> r[i] < r[j]
    ensures forall x :: x in r <==> FirstImaginaryIndex <= x < FirstImaginaryIndex + n
  {
    var r := Range(FirstImaginaryIndex, FirstImaginaryIndex + n);
    forall x | FirstImaginaryIndex <= x < FirstImaginaryIndex + n
      ensures x in r
    {
      assert r[x - FirstImaginaryIndex] == x;
    }
    r
  }

  /** `str(i).zfill(3)`: the index text the trajectory names use. */
  function Pad3(i: nat): string {
    ZFill(Dec(i), 3)
  }

  /**
   The padded text of `i` is `max(3, len(str(i)))` long, ends with `str(i)`
   after nothing but '0's, and still denotes `i`.
   */
  lemma Pad3Shape(i: nat)
    ensures AllDigits(Pad3(i)) && Value(Pad3(i)) == i
    ensures |Pad3(i)| == Max(3, |Dec(i)|)
    ensures Pad3(i)[|Pad3(i)| - |Dec(i)|..] == Dec(i) && IsZeros(Pad3(i)[..|Pad3(i)| - |Dec(i)|])
  {
    ValueOfDec(i);
    ValueOfZFill(Dec(i), 3);
    ZFillShape(Dec(i), 3);
  }

  lemma Pad3Examples()
    ensures Pad3(6) == "006"
    ensures Pad3(42) == "042"
    ensures Pad3(1234) == "1234"
  {
    assert Dec(6) == "6";
    assert Dec(42) == "42";
    assert Dec(1234) == "1234";
    assert Zeros(2) == "00" && Zeros(1) == "0";
  }

  /** Distinct indices have distinct padded texts. */
  lemma Pad3Injective(i: nat, j: nat)
    ensures Pad3(i) == Pad3(j) <==> i == j
  {
    Pad3Shape(i);
    Pad3Shape(j);
  }

  /** What `"{}.v{}.xyz".format(fn, str(i).zfill(3))` puts after `fn`. */
  function TrjSuffix(i: nat): string {
    ".v" + Pad3(i) + ".xyz"
  }

  /** `"{}.v{}.xyz".format(fn, str(i).zfill(3))`: the trajectory orca_pltvib writes for mode `i`. */
  function TrjName(fn: string, i: nat): string {
    fn + TrjSuffix(i)
  }

  lemma SuffixHasNoSlash(p: string)
    requires AllDigits(p)
    ensures NoSlash(".v" + p + ".xyz")
  {
    var s := ".v" + p + ".xyz";
    forall k | 0 <= k < |s|
      ensures s[k] != '/'
    {
      if 2 <= k < 2 + |p| {
        assert s[k] == p[k - 2];
      }
    }
  }

  /**
   A trajectory is written beside its log: its name splits into the log's
   directory part and the log's base name followed by the suffix.
   */
  lemma TrjNameSplit(fn: string, i: nat)
    ensures Split(TrjName(fn, i)) == (Split(fn).0, Split(fn).1 + TrjSuffix(i))
  {
    Pad3Shape(i);
    SuffixHasNoSlash(Pad3(i));
    SplitAppend(fn, TrjSuffix(i));
  }

  /** For one log, the trajectory name determines the index it was built from. */
  lemma TrjNameInjective(fn: string, i: nat, j: nat)
    ensures TrjName(fn, i) == TrjName(fn, j) <==> i == j
  {
    if TrjName(fn, i) == TrjName(fn, j) {
      var s, t := TrjSuffix(i), TrjSuffix(j);
      assert s == TrjName(fn, i)[|fn|..];
      assert t == TrjName(fn, j)[|fn|..];
      assert Pad3(i) == s[2..|s| - 4];
      assert Pad3(j) == t[2..|t| - 4];
      Pad3Injective(i, j);
    }
  }

  /** The trajectory names of `inds`, in the same order. */
  function TrjFns(fn: string, inds: seq<nat>): seq<string> {
    seq(|inds|, k requires 0 <= k < |inds| => TrjName(fn, inds[k]))
  }

  /** The trajectory names are pairwise distinct exactly when the indices are. */
  lemma TrjFnsDistinct(fn: string, inds: seq<nat>)
    ensures |TrjFns(fn, inds)| == |inds|
    ensures Distinct(TrjFns(fn, inds)) <==> Distinct(inds)
  {
    var t := TrjFns(fn, inds);
    forall i, j | 0 <= i < j < |inds|
      ensures t[i] == t[j] <==> inds[i] == inds[j]
    {
      TrjNameInjective(fn, inds[i], inds[j]);
    }
  }

  /**
   `[video_from_trajectory(t, i) for t, i in zip(trjFns, inds)]`: one movie
   per (trajectory, index) pair, as many as the shorter input has.
   */
  function MovieFns(trjFns: seq<string>, inds: seq<nat>): (r: seq<string>)
    ensures |r| == Min(|trjFns|, |inds|)
    ensures forall k :: 0 <= k < |r| ==> r[k] == VideoFromTrajectory(trjFns[k], inds[k]).movie
  {
    if |trjFns| == 0 || |inds| == 0 then []
    else [VideoFromTrajectory(trjFns[0], inds[0]).movie] + MovieFns(trjFns[1..], inds[1..])
  }

  /**
   The list comprehension over `zip(indices, values, movies)`: the k-th
   record pairs the k-th element of each input, and Python's `zip` stops at
   the shortest input.
   */
  function Zip3<V>(fn: string, inds: seq<nat>, values: seq<V>, movies: seq<string>): (r: seq<ImgVib<V>>)
    ensures |r| == Min(|inds|, Min(|values|, |movies|))
    ensures forall k :: 0 <= k < |r| ==> r[k] == ImgVib(fn, inds[k], values[k], movies[k])
  {
    if |inds| == 0 || |values| == 0 || |movies| == 0 then []
    else [ImgVib(fn, inds[0], values[0], movies[0])] + Zip3(fn, inds[1..], values[1..], movies[1..])
  }

  /** The movie of the mode with index `i` in the log named `fn`. */
  function ModeMovie(fn: string, i: nat): string {
    VideoFromTrajectory(TrjName(fn, i), i).movie
  }

  /**
   Zipping the trajectory names of `inds` with `inds` itself gives, in
   order, the movie of each mode.
   */
  lemma MoviesOfModes(fn: string, inds: seq<nat>)
    ensures |MovieFns(TrjFns(fn, inds), inds)| == |inds|
    ensures forall k :: 0 <= k < |inds| ==> MovieFns(TrjFns(fn, inds), inds)[k] == ModeMovie(fn, inds[k])
  {
    var t := TrjFns(fn, inds);
    forall k | 0 <= k < |inds|
      ensures MovieFns(t, inds)[k] == ModeMovie(fn, inds[k])
    {
      assert t[k] == TrjName(fn, inds[k]);
    }
  }

  /**
   `vibs_from_orca_log`: one record per imaginary frequency, in the
   parser's order, the k-th carrying the log's name, index
   `FirstImaginaryIndex + k` and the k-th frequency; indices strictly
   ascend. `VibMovies` states which movie each record carries.
   */
  function VibsFromOrcaLog<V>(log: OrcaLog<V>): (r: seq<ImgVib<V>>)
    ensures |r| == |log.imgVibFreqs|
    ensures forall k :: 0 <= k < |r| ==>
              && r[k].fn == log.fn
              && r[k].index == FirstImaginaryIndex + k
              && r[k].value == log.imgVibFreqs[k]
    ensures forall i, j :: 0 <= i < j < |r| ==> r[i].index < r[j].index
  {
    var indexRange := IndexRange(|log.imgVibFreqs|);
    var trjFns := TrjFns(log.fn, indexRange);
    Zip3(log.fn, indexRange, log.imgVibFreqs, MovieFns(trjFns, indexRange))
  }

  /** The k-th record of a log carries the movie of mode `FirstImaginaryIndex + k`. */
  lemma VibMovies<V>(log: OrcaLog<V>)
    ensures forall k :: 0 <= k < |VibsFromOrcaLog(log)| ==>
              VibsFromOrcaLog(log)[k].movie == ModeMovie(log.fn, FirstImaginaryIndex + k)
  {
    var indexRange := IndexRange(|log.imgVibFreqs|);
    MoviesOfModes(log.fn, indexRange);
  }

  /**
   Where a mode's movie lies: in the directory `trj<i>` beside the log
   itself, under the name `trj<i>.gif`; the log's own base name plays no part.
   */
  lemma ModeMovieLocation(fn: string, i: nat)
    ensures Split(ModeMovie(fn, i)) == (Join(Split(fn).0, DirName(i)), MovieName(i))
  {
    TrjNameSplit(fn, i);
    VideoLayout(TrjName(fn, i), i);
  }

  /**
   Two logs get the same movie for the same index exactly when they lie in
   the same directory; within one directory they therefore collide.
   */
  lemma ModeMovieCollision(fn1: string, i: nat, fn2: string, j: nat)
    ensures ModeMovie(fn1, i) == ModeMovie(fn2, j) <==> Split(fn1).0 == Split(fn2).0 && i == j
  {
    TrjNameSplit(fn1, i);
    TrjNameSplit(fn2, j);
    MovieIdentity(TrjName(fn1, i), i, TrjName(fn2, j), j);
  }

  /** A log directly inside directory `calc` has `calc` as its directory part. */
  lemma SplitInCalc(base: string)
    requires base != [] && NoSlash(base)
    ensures Split("calc/" + base).0 == "calc"
  {
    assert "calc/" + base == Join("calc", base);
    SplitJoin("calc", base);
  }

  /** The trajectory of mode 6 of a log `calc/a.out`. */
  lemma TrjNameExample()
    ensures TrjName("calc/a.out", 6) == "calc/a.out.v006.xyz"
  {
    Pad3Examples();
  }

  /** That trajectory lies in `calc`, beside its log. */
  lemma TrjDirExample()
    ensures Split(TrjName("calc/a.out", 6)).0 == "calc"
  {
    assert NoSlash("a.out");
    assert "calc/a.out" == "calc/" + "a.out";
    SplitInCalc("a.out");
    TrjNameSplit("calc/a.out", 6);
  }

  /** The two joins that place the movie of mode 6 under `calc`. */
  lemma CalcJoins()
    ensures Join("calc", "trj6") == "calc/trj6"
    ensures Join("calc/trj6", "trj6.gif") == "calc/trj6/trj6.gif"
  {
    var dir: string := "calc/trj6";
    assert dir[|dir| - 1] == '6';
    assert dir + "/" + "trj6.gif" == "calc/trj6/trj6.gif";
  }

  /** The movie of mode 6 of a log `calc/a.out`. */
  lemma MovieExample()
    ensures ModeMovie("calc/a.out", 6) == "calc/trj6/trj6.gif"
  {
    var t := TrjName("calc/a.out", 6);
    TrjDirExample();
    assert DirName(6) == "trj6" && MovieName(6) == "trj6.gif" by {
      assert Dec(6) == "6";
    }
    CalcJoins();
    assert ModeMovie("calc/a.out", 6) == Join(Join(Split(t).0, DirName(6)), MovieName(6));
  }

  /** Logs `calc/a.out` and `calc/b.out` both send mode 6 to the same movie. */
  lemma CollisionExample()
    ensures ModeMovie("calc/b.out", 6) == ModeMovie("calc/a.out", 6)
  {
    assert NoSlash("a.out") && NoSlash("b.out");
    assert "calc/a.out" == "calc/" + "a.out" && "calc/b.out" == "calc/" + "b.out";
    SplitInCalc("a.out");
    SplitInCalc("b.out");
    ModeMovieCollision("calc/b.out", 6, "calc/a.out", 6);
  }

  /**
   Records whose k-th movie is that of mode `FirstImaginaryIndex + k` of
   one log have pairwise distinct movies.
   */
  lemma AlignedMoviesDistinct<V>(fn: string, r: seq<ImgVib<V>>)
    requires forall k :: 0 <= k < |r| ==> r[k].movie == ModeMovie(fn, FirstImaginaryIndex + k)
    ensures forall i, j :: 0 <= i < |r| && 0 <= j < |r| && r[i].movie == r[j].movie ==> i == j
  {
    ModeMovieInjective(fn);
  }

  /** Within one log, a movie path identifies the record it belongs to. */
  lemma VibMoviesDistinct<V>(log: OrcaLog<V>)
    ensures forall i, j :: 0 <= i < |VibsFromOrcaLog(log)| && 0 <= j < |VibsFromOrcaLog(log)| ==>
              (VibsFromOrcaLog(log)[i].movie == VibsFromOrcaLog(log)[j].movie ==> i == j)
  {
    VibMovies(log);
    AlignedMoviesDistinct(log.fn, VibsFromOrcaLog(log));
  }

  /** Within one log, the movie path determines the mode index. */
  lemma ModeMovieInjective(fn: string)
    ensures forall i: nat, j: nat :: ModeMovie(fn, i) == ModeMovie(fn, j) ==> i == j
  {
    forall i: nat, j: nat | ModeMovie(fn, i) == ModeMovie(fn, j)
      ensures i == j
    {
      ModeMovieCollision(fn, i, fn, j);
    }
  }
}
