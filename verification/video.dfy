/**
 The paths `video_from_trajectory` derives for one trajectory file: the
 per-index output directory, the frame stem handed to the Jmol script, the
 script itself and the resulting movie. Creating the directory, writing the
 script and running Jmol and ImageMagick are effects outside this model.
 */
module Video {
  import opened Decimal
  import opened Paths

  datatype VideoPaths = VideoPaths(dir: string, frameStem: string, script: string, movie: string)

  /** `"trj{}".format(ind)`: the output directory's name. */
  function DirName(ind: nat): string {
    "trj" + Dec(ind)
  }

  /** `"trj{}.gif".format(ind)`: the movie's file name. */
  function MovieName(ind: nat): string {
    "trj" + Dec(ind) + ".gif"
  }

  lemma NamesHaveNoSlash(ind: nat)
    ensures NoSlash(DirName(ind)) && NoSlash(MovieName(ind))
  {
    var d := Dec(ind);
    assert forall k :: 0 <= k < |d| ==> IsDigit(d[k]);
  }

  /** The output directory splits into the trajectory's directory and `DirName(ind)`. */
  lemma DirSplit(head: string, ind: nat)
    requires IsDirPart(head)
    ensures Split(Join(head, DirName(ind))) == (head, DirName(ind))
    ensures IsDirPart(Join(head, DirName(ind)))
  {
    NamesHaveNoSlash(ind);
    SplitJoin(head, DirName(ind));
    JoinNameIsDirPart(head, DirName(ind));
  }

  /** The three files `video_from_trajectory` names inside its output directory. */
  lemma FilesSplit(dir: string, ind: nat)
    requires IsDirPart(dir)
    ensures Split(Join(dir, "movie")) == (dir, "movie")
    ensures Split(Join(dir, "animate.spt")) == (dir, "animate.spt")
    ensures Split(Join(dir, MovieName(ind))) == (dir, MovieName(ind))
  {
    NamesHaveNoSlash(ind);
    assert NoSlash("movie") && NoSlash("animate.spt");
    SplitJoin(dir, "movie");
    SplitJoin(dir, "animate.spt");
    SplitJoin(dir, MovieName(ind));
  }

  /** Every path `video_from_trajectory(trjFn, ind)` uses. */
  function VideoFromTrajectory(trjFn: string, ind: nat): VideoPaths {
    var dir := Join(Split(trjFn).0, DirName(ind));
    VideoPaths(dir, Join(dir, "movie"), Join(dir, "animate.spt"), Join(dir, MovieName(ind)))
  }

  /**
   The layout of those paths: the directory sits beside the trajectory and
   is named after the index; the frame stem, the script and the movie all
   lie directly inside that directory.
   */
  lemma VideoLayout(trjFn: string, ind: nat)
    ensures var v := VideoFromTrajectory(trjFn, ind);
      && Split(v.dir) == (Split(trjFn).0, DirName(ind))
      && Split(v.frameStem) == (v.dir, "movie")
      && Split(v.script) == (v.dir, "animate.spt")
      && Split(v.movie) == (v.dir, MovieName(ind))
  {
    var dir := Join(Split(trjFn).0, DirName(ind));
    SplitParts(trjFn);
    DirSplit(Split(trjFn).0, ind);
    FilesSplit(dir, ind);
  }

  /**
   The movie path is determined by the trajectory's directory and the index
   alone: two trajectories get the same movie exactly when they share a
   directory and an index.
   */
  lemma MovieIdentity(p: string, i: nat, q: string, j: nat)
    ensures VideoFromTrajectory(p, i).movie == VideoFromTrajectory(q, j).movie
            <==> Split(p).0 == Split(q).0 && i == j
  {
    var v, w := VideoFromTrajectory(p, i), VideoFromTrajectory(q, j);
    VideoLayout(p, i);
    VideoLayout(q, j);
    if v.movie == w.movie {
      assert MovieName(i) == MovieName(j);
      assert Dec(i) == MovieName(i)[3..|MovieName(i)| - 4];
      assert Dec(j) == MovieName(j)[3..|MovieName(j)| - 4];
      DecInjective(i, j);
      assert Split(v.dir).0 == Split(w.dir).0;
    }
  }

  /**
   The output directory is likewise determined by the trajectory's directory
   and the index, and distinct indices get distinct directories.
   */
  lemma DirIdentity(p: string, i: nat, q: string, j: nat)
    ensures VideoFromTrajectory(p, i).dir == VideoFromTrajectory(q, j).dir
            <==> Split(p).0 == Split(q).0 && i == j
  {
    var v, w := VideoFromTrajectory(p, i), VideoFromTrajectory(q, j);
    VideoLayout(p, i);
    VideoLayout(q, j);
    if v.dir == w.dir {
      assert DirName(i) == DirName(j);
      assert Dec(i) == DirName(i)[3..];
      assert Dec(j) == DirName(j)[3..];
      DecInjective(i, j);
    }
  }
}
