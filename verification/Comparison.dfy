/**
 * Whether an installed file is up to date, `destinationUpToDate` of `pkg/install/install.go`: two
 * files are read piece by piece into one buffer, and a read may deliver less than was asked for.
 */
module Comparison {
  import opened Wrappers
  import opened Bytes

  datatype File = File(content: Content, mode: int)

  /** What the name of a directory entry stands for. */
  datatype Node = Regular(file: File) | Directory

  const BUFFER_SIZE: nat := 64000

  /** How one read goes: it delivers at most this much, or it fails. */
  datatype Attempt = Deliver(most: nat) | Fail

  /** How the reads of one open file go, one after the other. */
  type Schedule = nat -> Attempt

  datatype ReadError = NoError | EndOfFile | Broken

  /** A read delivers something unless it fails or is at the end. */
  function Piece(length: nat, position: nat, attempt: Attempt): (piece: (nat, ReadError))
    requires position <= length
    ensures position + piece.0 <= length && piece.0 <= BUFFER_SIZE
    ensures 0 < piece.0 <==> piece.1 == NoError
    ensures piece.1 == Broken <==> attempt == Fail
    ensures piece.1 == NoError ==> piece.0 <= attempt.most || piece.0 == 1
  {
    match attempt
    case Fail => (0, Broken)
    case Deliver(most) =>
      if position == length then (0, EndOfFile)
      else
        var asked := if length - position < BUFFER_SIZE then length - position else BUFFER_SIZE;
        (if most < 1 then 1 else if most < asked then most else asked, NoError)
  }

  class Reader {
    const content: Content
    const schedule: Schedule
    var position: nat
    var readCount: nat

    constructor (content: Content, schedule: Schedule)
      ensures this.content == content && this.schedule == schedule && position == 0 && readCount == 0
    {
      this.content, this.schedule, position, readCount := content, schedule, 0, 0;
    }

    method Read(buffer: array<bv8>) returns (n: nat, err: ReadError)
      requires position <= |content| && buffer.Length == BUFFER_SIZE
      modifies this, buffer
      ensures (n, err) == Piece(|content|, old(position), schedule(old(readCount)))
      ensures position == old(position) + n && readCount == old(readCount) + 1
      ensures buffer[..n] == content[old(position)..position]
    {
      var piece := Piece(|content|, position, schedule(readCount));
      n, err := piece.0, piece.1;
      forall i | 0 <= i < n {
        buffer[i] := content[position + i];
      }
      position, readCount := position + n, readCount + 1;
    }
  }

  // ---------- What the loop decides ----------

  /** The verdict on two contents of one length from a position on, at the given read. */
  function Compare(a: Content, b: Content, s1: Schedule, s2: Schedule, position: nat, read: nat): Result<bool, ()>
    requires |a| == |b| && position <= |a|
    decreases |a| - position
  {
    var (n1, err1) := Piece(|a|, position, s1(read));
    var (n2, err2) := Piece(|b|, position, s2(read));
    if err1 != NoError || err2 != NoError then
      if err1 == EndOfFile && err2 == EndOfFile then Success(true)
      else if err1 == EndOfFile || err2 == EndOfFile then Success(false)
      else Failure(())
    else if a[position..position + n1] != b[position..position + n2] then Success(false)
    else Compare(a, b, s1, s2, position + n1, read + 1)
  }

  function UpToDate(src: File, dst: Option<Node>, s1: Schedule, s2: Schedule): Result<bool, ()> {
    if dst.None? || dst.value.Directory? || |src.content| != |dst.value.file.content| ||
       src.mode != dst.value.file.mode
    then Success(false)
    else Compare(src.content, dst.value.file.content, s1, s2, 0, 0)
  }

  method DestinationUpToDate(src: File, dst: Option<Node>, s1: Schedule, s2: Schedule) returns (r: Result<bool, ()>)
    ensures r == UpToDate(src, dst, s1, s2)
  {
    // A directory has another mode than any file.
    if dst.None? || dst.value.Directory? {
      return Success(false);
    }
    var f1info, f2info := src, dst.value.file;
    if |f1info.content| != |f2info.content| {
      return Success(false);
    }
    if f1info.mode != f2info.mode {
      return Success(false);
    }
    var f1 := new Reader(f1info.content, s1);
    var f2 := new Reader(f2info.content, s2);
    var buffer := new bv8[BUFFER_SIZE];
    while true
      invariant f1.position == f2.position <= |f1.content| && f1.readCount == f2.readCount
      invariant UpToDate(src, dst, s1, s2) == Compare(f1.content, f2.content, s1, s2, f1.position, f1.readCount)
      decreases |f1.content| - f1.position
    {
      var bytesRead, err1 := f1.Read(buffer);
      var piece1 := buffer[..bytesRead];
      var bytesRead2, err2 := f2.Read(buffer);
      var piece2 := buffer[..bytesRead2];
      if err1 != NoError || err2 != NoError {
        if err1 == EndOfFile && err2 == EndOfFile {
          return Success(true);
        } else if err1 == EndOfFile || err2 == EndOfFile {
          return Success(false);
        } else if err1 != NoError {
          return Failure(());
        } else if err2 != NoError {
          return Failure(());
        } else if bytesRead != bytesRead2 {
          // The branches above leave nothing for this one.
          assert false;
        }
      }
      if piece1 != piece2 {
        return Success(false);
      }
      assert |piece1| == |piece2|;
    }
  }

  // ---------- What the verdict means ----------

  /** The two files deliver pieces of the same size to the end, and no read fails. */
  predicate Lockstep(s1: Schedule, s2: Schedule, length: nat, position: nat, read: nat)
    requires position <= length
    decreases length - position
  {
    && s1(read).Deliver? && s2(read).Deliver?
    && (position < length ==>
          var n := Piece(length, position, s1(read)).0;
          n == Piece(length, position, s2(read)).0 && Lockstep(s1, s2, length, position + n, read + 1))
  }

  lemma {:induction false} CompareIsTrueIff(
      a: Content, b: Content, s1: Schedule, s2: Schedule, position: nat, read: nat)
    requires |a| == |b| && position <= |a|
    ensures Compare(a, b, s1, s2, position, read) == Success(true) <==>
            a[position..] == b[position..] && Lockstep(s1, s2, |a|, position, read)
    decreases |a| - position
  {
    var (n1, err1) := Piece(|a|, position, s1(read));
    var (n2, err2) := Piece(|b|, position, s2(read));
    if err1 == NoError && err2 == NoError {
      CompareGoesOn(a, b, s1, s2, position, read);
      hide *;
      CompareIsTrueIff(a, b, s1, s2, position + n1, read + 1);
      RestAgrees(a, b, position, n1);
      assert |a[position..position + n1]| == n1 && |b[position..position + n2]| == n2;
    } else {
      hide *;
      CompareEnds(a, b, s1, s2, position, read);
    }
  }

  /** The last round: one of the files fails or is at its end. */
  lemma CompareEnds(a: Content, b: Content, s1: Schedule, s2: Schedule, position: nat, read: nat)
    requires |a| == |b| && position <= |a|
    requires !(Piece(|a|, position, s1(read)).1 == Piece(|b|, position, s2(read)).1 == NoError)
    ensures Compare(a, b, s1, s2, position, read) == Success(true) <==>
            a[position..] == b[position..] && Lockstep(s1, s2, |a|, position, read)
  {
    assert position == |a| ==> a[position..] == [] && b[position..] == [];
  }

  /** A round in which both files deliver something. */
  lemma CompareGoesOn(a: Content, b: Content, s1: Schedule, s2: Schedule, position: nat, read: nat)
    requires |a| == |b| && position <= |a|
    requires Piece(|a|, position, s1(read)).1 == Piece(|b|, position, s2(read)).1 == NoError
    ensures var n1, n2 := Piece(|a|, position, s1(read)).0, Piece(|b|, position, s2(read)).0;
            && 0 < n1 && position + n1 <= |a| && position + n2 <= |b|
            && Compare(a, b, s1, s2, position, read) ==
               (if a[position..position + n1] != b[position..position + n2] then Success(false)
                else Compare(a, b, s1, s2, position + n1, read + 1))
            && (Lockstep(s1, s2, |a|, position, read) <==>
                n1 == n2 && Lockstep(s1, s2, |a|, position + n1, read + 1))
  {
  }

  lemma RestAgrees(a: Content, b: Content, position: nat, n: nat)
    requires |a| == |b| && position + n <= |a|
    ensures a[position..] == b[position..] <==>
            a[position..position + n] == b[position..position + n] && a[position + n..] == b[position + n..]
  {
    assert a[position..] == a[position..position + n] + a[position + n..];
    assert b[position..] == b[position..position + n] + b[position + n..];
    assert a[position..position + n] == a[position..][..n] && b[position..position + n] == b[position..][..n];
    assert a[position + n..] == a[position..][n..] && b[position + n..] == b[position..][n..];
  }

  /** Up to date exactly when the destination is an equal file and the reads keep in step. */
  lemma UpToDateIff(src: File, dst: Option<Node>, s1: Schedule, s2: Schedule)
    ensures UpToDate(src, dst, s1, s2) == Success(true) <==>
            dst == Some(Regular(src)) && Lockstep(s1, s2, |src.content|, 0, 0)
  {
    if dst.Some? && dst.value.Regular? && |dst.value.file.content| == |src.content| {
      var a, b := src.content, dst.value.file.content;
      CompareIsTrueIff(a, b, s1, s2, 0, 0);
      assert a[0..] == a && b[0..] == b;
    }
  }

  // ---------- When the verdict is an error ----------

  /** How far a file has been read after so many reads. */
  function Delivered(length: nat, s: Schedule, i: nat): (position: nat)
    ensures position <= length
  {
    if i == 0 then 0
    else
      var before := Delivered(length, s, i - 1);
      before + Piece(length, before, s(i - 1)).0
  }

  /** Neither of these reads fails or finds the end, and both deliver as much. */
  predicate ReadsAsMuch(length: nat, s1: Schedule, s2: Schedule, i: nat) {
    && s1(i).Deliver? && s2(i).Deliver? && Delivered(length, s1, i) < length
    && Delivered(length, s1, i) == Delivered(length, s2, i)
    && Delivered(length, s1, i + 1) == Delivered(length, s2, i + 1)
  }

  /** All reads so far were like that, and the files have delivered the same. */
  ghost predicate ReadAlike(a: Content, b: Content, s1: Schedule, s2: Schedule, i: nat)
    requires |a| == |b|
  {
    var position := Delivered(|a|, s1, i);
    && (forall j :: 0 <= j < i ==> ReadsAsMuch(|a|, s1, s2, j))
    && position == Delivered(|a|, s2, i) && a[..position] == b[..position]
  }

  /** The next read of one file fails, and that of the other fails as well or is not at its end. */
  ghost predicate FailsAt(a: Content, b: Content, s1: Schedule, s2: Schedule, i: nat)
    requires |a| == |b|
  {
    && ReadAlike(a, b, s1, s2, i)
    && (s1(i).Fail? || s2(i).Fail?)
    && (Delivered(|a|, s1, i) < |a| || (s1(i).Fail? && s2(i).Fail?))
  }

  lemma {:induction false} FailureHasACause(a: Content, b: Content, s1: Schedule, s2: Schedule, i: nat)
    requires |a| == |b| && ReadAlike(a, b, s1, s2, i)
    requires Compare(a, b, s1, s2, Delivered(|a|, s1, i), i).Failure?
    ensures exists n :: FailsAt(a, b, s1, s2, n)
    decreases |a| - Delivered(|a|, s1, i)
  {
    var position := Delivered(|a|, s1, i);
    var (n1, err1) := Piece(|a|, position, s1(i));
    var (n2, err2) := Piece(|b|, position, s2(i));
    if err1 != NoError || err2 != NoError {
      assert FailsAt(a, b, s1, s2, i);
    } else {
      CompareGoesOn(a, b, s1, s2, position, i);
      assert Delivered(|a|, s1, i + 1) == position + n1;
      hide *;
      NextReadAlike(a, b, s1, s2, i);
      FailureHasACause(a, b, s1, s2, i + 1);
    }
  }

  /** A round of equal pieces is one more alike. */
  lemma NextReadAlike(a: Content, b: Content, s1: Schedule, s2: Schedule, i: nat)
    requires |a| == |b| && ReadAlike(a, b, s1, s2, i)
    requires var position := Delivered(|a|, s1, i);
             var (n1, err1) := Piece(|a|, position, s1(i));
             var (n2, err2) := Piece(|b|, position, s2(i));
             err1 == err2 == NoError && a[position..position + n1] == b[position..position + n2]
    ensures ReadAlike(a, b, s1, s2, i + 1)
  {
    var position := Delivered(|a|, s1, i);
    var n1, n2 := Piece(|a|, position, s1(i)).0, Piece(|b|, position, s2(i)).0;
    assert |a[position..position + n1]| == n1 && |b[position..position + n2]| == n2;
    StartAgrees(a, b, position, n1);
  }

  lemma StartAgrees(a: Content, b: Content, position: nat, n: nat)
    requires |a| == |b| && position + n <= |a|
    ensures a[..position + n] == b[..position + n] <==>
            a[..position] == b[..position] && a[position..position + n] == b[position..position + n]
  {
    assert a[..position + n] == a[..position] + a[position..position + n];
    assert b[..position + n] == b[..position] + b[position..position + n];
  }

  lemma {:induction false} CauseMakesFailure(a: Content, b: Content, s1: Schedule, s2: Schedule, i: nat, n: nat)
    requires |a| == |b| && FailsAt(a, b, s1, s2, n) && i <= n
    ensures Compare(a, b, s1, s2, Delivered(|a|, s1, i), i).Failure?
    decreases n - i
  {
    if i < n {
      var last := Delivered(|a|, s1, n);
      assert ReadsAsMuch(|a|, s1, s2, i) && a[..last] == b[..last];
      hide *;
      CauseMakesFailure(a, b, s1, s2, i + 1, n);
      DeliveredGrows(|a|, s1, i + 1, n);
      GoesOn(a, b, s1, s2, i, last);
    }
  }

  /** The comparison goes on after a round of equal pieces. */
  lemma GoesOn(a: Content, b: Content, s1: Schedule, s2: Schedule, i: nat, last: nat)
    requires |a| == |b| && ReadsAsMuch(|a|, s1, s2, i)
    requires Delivered(|a|, s1, i + 1) <= last <= |a| && a[..last] == b[..last]
    ensures Compare(a, b, s1, s2, Delivered(|a|, s1, i), i) == Compare(a, b, s1, s2, Delivered(|a|, s1, i + 1), i + 1)
  {
    var position, next := Delivered(|a|, s1, i), Delivered(|a|, s1, i + 1);
    PieceOfStart(a, b, position, next, last);
    var piece1, piece2 := Piece(|a|, position, s1(i)), Piece(|b|, position, s2(i));
    assert piece1.1 == piece2.1 == NoError && position + piece1.0 == position + piece2.0 == next;
  }

  lemma PieceOfStart(a: Content, b: Content, from: nat, to: nat, last: nat)
    requires from <= to <= last <= |a| == |b| && a[..last] == b[..last]
    ensures a[from..to] == b[from..to]
  {
    forall k | from <= k < to ensures a[k] == b[k] {
      assert a[..last][k] == b[..last][k];
    }
  }

  lemma {:induction false} DeliveredGrows(length: nat, s: Schedule, i: nat, n: nat)
    requires i <= n
    ensures Delivered(length, s, i) <= Delivered(length, s, n)
    decreases n - i
  {
    if i < n {
      DeliveredGrows(length, s, i + 1, n);
    }
  }

  /** The comparison ends in an error exactly when a read fails before a difference or an end is found. */
  lemma CompareFailsIff(a: Content, b: Content, s1: Schedule, s2: Schedule)
    requires |a| == |b|
    ensures Compare(a, b, s1, s2, 0, 0).Failure? <==> exists n :: FailsAt(a, b, s1, s2, n)
  {
    if Compare(a, b, s1, s2, 0, 0).Failure? {
      assert ReadAlike(a, b, s1, s2, 0);
      FailureHasACause(a, b, s1, s2, 0);
    }
    if n: nat :| FailsAt(a, b, s1, s2, n) {
      CauseMakesFailure(a, b, s1, s2, 0, n);
    }
  }

  /** Only files of one size and mode are compared at all. */
  lemma UpToDateFailsIff(src: File, dst: Option<Node>, s1: Schedule, s2: Schedule)
    ensures UpToDate(src, dst, s1, s2).Failure? <==>
            && dst.Some? && dst.value.Regular?
            && |dst.value.file.content| == |src.content| && dst.value.file.mode == src.mode
            && exists n :: FailsAt(src.content, dst.value.file.content, s1, s2, n)
  {
    if dst.Some? && dst.value.Regular? && |dst.value.file.content| == |src.content| {
      CompareFailsIff(src.content, dst.value.file.content, s1, s2);
    }
  }

  // ---------- Reads in step ----------

  /** Every read fills the buffer, or delivers all that is left. */
  ghost predicate ReadsAreFull(s: Schedule) {
    forall i :: s(i).Deliver? && s(i).most >= BUFFER_SIZE
  }

  lemma {:induction false} FullReadsKeepInStep(s1: Schedule, s2: Schedule, length: nat, position: nat, read: nat)
    requires ReadsAreFull(s1) && ReadsAreFull(s2) && position <= length
    ensures Lockstep(s1, s2, length, position, read)
    decreases length - position
  {
    if position < length {
      FullReadsKeepInStep(s1, s2, length, position + Piece(length, position, s1(read)).0, read + 1);
    }
  }

  lemma {:induction false} NoFailureNoError(
      a: Content, b: Content, s1: Schedule, s2: Schedule, position: nat, read: nat)
    requires |a| == |b| && position <= |a|
    requires forall i :: s1(i).Deliver? && s2(i).Deliver?
    ensures Compare(a, b, s1, s2, position, read).Success?
    decreases |a| - position
  {
    var (n1, err1) := Piece(|a|, position, s1(read));
    if err1 == NoError {
      NoFailureNoError(a, b, s1, s2, position + n1, read + 1);
    }
  }

  /** With reads that never fail and keep in step, the verdict is plain equality. */
  lemma InStepVerdictIsEquality(src: File, dst: Option<Node>, s1: Schedule, s2: Schedule)
    requires forall i :: s1(i).Deliver? && s2(i).Deliver?
    requires Lockstep(s1, s2, |src.content|, 0, 0)
    ensures UpToDate(src, dst, s1, s2) == Success(dst == Some(Regular(src)))
  {
    UpToDateIff(src, dst, s1, s2);
    if dst.Some? && dst.value.Regular? && |dst.value.file.content| == |src.content| {
      NoFailureNoError(src.content, dst.value.file.content, s1, s2, 0, 0);
    }
    var verdict := UpToDate(src, dst, s1, s2);
    assert verdict.Success? && (verdict.value <==> verdict == Success(true));
  }
}
