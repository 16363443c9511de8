/** The directory a durable checkpoint works in, and the file operations it is made of. */
module Disk {
  import opened Utf8
  import opened Journal

  type Files = map<Path, Bytes>

  /** One file operation. A crash falls between two of these, never inside one. Building a file
      is a `Truncate` and an `Append` per byte; `Put` is a whole-file write taken as one step. */
  datatype Op =
    | Truncate(path: Path)
    | Append(path: Path, b: Byte)
    | Put(path: Path, content: Bytes)
    | Copy(path: Path, to: Path)
    | Rename(path: Path, to: Path)
    | Remove(path: Path)
    | RemoveIfPresent(path: Path)

  /** The operation succeeds; otherwise the source unwraps an error and panics. */
  predicate CanDo(op: Op, fs: Files)
  {
    op.Truncate? || op.Put? || op.RemoveIfPresent? || op.path in fs
  }

  function Do(op: Op, fs: Files): Files
    requires CanDo(op, fs)
  {
    match op
    case Truncate(p) => fs[p := []]
    case Append(p, b) => fs[p := fs[p] + [b]]
    case Put(p, c) => fs[p := c]
    case Copy(p, to) => fs[to := fs[p]]
    case Rename(p, to) => if p == to then fs else fs[to := fs[p]] - {p}
    case Remove(p) => fs - {p}
    case RemoveIfPresent(p) => fs - {p}
  }

  /** Runs the operations in order and stops at the first one that fails. */
  function Exec(ops: seq<Op>, fs: Files): Files
    decreases |ops|
  {
    if ops == [] || !CanDo(ops[0], fs) then fs else Exec(ops[1..], Do(ops[0], fs))
  }

  predicate Completes(ops: seq<Op>, fs: Files)
    decreases |ops|
  {
    ops == [] || (CanDo(ops[0], fs) && Completes(ops[1..], Do(ops[0], fs)))
  }

  lemma {:induction false} ExecConcat(a: seq<Op>, b: seq<Op>, fs: Files)
    requires Completes(a, fs)
    ensures Exec(a + b, fs) == Exec(b, Exec(a, fs))
    ensures Completes(a + b, fs) == Completes(b, Exec(a, fs))
    decreases |a|
  {
    if a == [] {
      assert a + b == b;
    } else {
      assert (a + b)[1..] == a[1..] + b;
      ExecConcat(a[1..], b, Do(a[0], fs));
    }
  }

  lemma ExecCons(op: Op, rest: seq<Op>, fs: Files)
    requires CanDo(op, fs)
    ensures Exec([op] + rest, fs) == Exec(rest, Do(op, fs))
    ensures Completes([op] + rest, fs) == Completes(rest, Do(op, fs))
  {
  }

  function Appends(p: Path, bytes: Bytes): (ops: seq<Op>)
    ensures |ops| == |bytes|
    ensures forall i :: 0 <= i < |bytes| ==> ops[i] == Append(p, bytes[i])
  {
    if bytes == [] then [] else [Append(p, bytes[0])] + Appends(p, bytes[1..])
  }

  /** Building a file byte by byte leaves, at any point, a prefix of it. */
  lemma {:induction false} ExecAppends(p: Path, bytes: Bytes, fs: Files)
    requires p in fs
    ensures Completes(Appends(p, bytes), fs)
    ensures Exec(Appends(p, bytes), fs) == fs[p := fs[p] + bytes]
    decreases |bytes|
  {
    if bytes == [] {
      assert fs[p] + bytes == fs[p];
      assert fs[p := fs[p]] == fs;
    } else {
      hide Exec, Completes;
      var next := Do(Append(p, bytes[0]), fs);
      ExecCons(Append(p, bytes[0]), Appends(p, bytes[1..]), fs);
      ExecAppends(p, bytes[1..], next);
      assert next[p] + bytes[1..] == fs[p] + bytes;
      assert next[p := fs[p] + bytes] == fs[p := fs[p] + bytes];
    }
  }

  /** `g` and `f` agree outside `except`. */
  ghost predicate Same(f: Files, g: Files, except: set<Path>)
  {
    forall p :: p !in except ==> (p in f <==> p in g) && (p in f ==> f[p] == g[p])
  }
}
