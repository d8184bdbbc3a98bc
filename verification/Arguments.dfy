/** capture_request of src/exec.c: the path and the argument strings copied out of the calling program. */
module Arguments {
  import opened Memory

  const PATH_MAX := 256
  const ARGUMENT_MAX := 16
  const ARGUMENT_BYTES_MAX := 2048

  /** A `const char *`: null, or the bytes from the pointed-to address on. */
  datatype Pointer = Null | Text(at: nat -> Byte)

  /** A `char *const argv[]`: null, or its entries. */
  datatype Vector = NoVector | Vector(entry: nat -> Pointer)

  /** The strings, NUL-terminated, one after another in one buffer. */
  datatype Request = Request(path: seq<Byte>, offsets: seq<nat>, storage: seq<Byte>)

  ghost predicate IsString(t: nat -> Byte, s: seq<Byte>) {
    (forall i :: 0 <= i < |s| ==> t(i) == s[i] && s[i] != 0) && t(|s|) == 0
  }

  /** Every string followed by its terminator. */
  ghost function Packed(strings: seq<seq<Byte>>): seq<Byte> {
    if strings == [] then [] else Packed(strings[..|strings| - 1]) + strings[|strings| - 1] + [0]
  }

  /** String i starts where the strings before it end. */
  ghost predicate LaidOut(strings: seq<seq<Byte>>, offsets: seq<nat>, storage: seq<Byte>) {
    && |offsets| == |strings| && storage == Packed(strings)
    && forall i :: 0 <= i < |strings| ==> offsets[i] == |Packed(strings[..i])|
  }

  ghost predicate PathIs(path: Pointer, s: seq<Byte>) {
    path.Text? && IsString(path.at, s) && 0 < |s| < PATH_MAX
  }

  /** The vector holds exactly these strings, then the null sentinel, within the policy limits. */
  ghost predicate ArgumentsAre(argv: Vector, strings: seq<seq<Byte>>) {
    && |strings| < ARGUMENT_MAX && |Packed(strings)| <= ARGUMENT_BYTES_MAX
    && (argv.NoVector? ==> strings == [])
    && (argv.Vector? ==> FirstStrings(argv.entry, strings) && argv.entry(|strings|).Null?)
  }

  ghost predicate FirstStrings(entry: nat -> Pointer, strings: seq<seq<Byte>>) {
    forall i :: 0 <= i < |strings| ==> entry(i).Text? && IsString(entry(i).at, strings[i])
  }

  /** The limits in numbers: a path of 1 to 255 bytes, at most 15 strings, and at most 2048 bytes for them with their
      terminators. */
  lemma RequestLimits(path: Pointer, s: seq<Byte>, argv: Vector, strings: seq<seq<Byte>>)
    ensures PathIs(path, s) <==>
              && path.Text? && 1 <= |s| <= 255 && path.at(|s|) == 0
              && forall i :: 0 <= i < |s| ==> path.at(i) == s[i] && s[i] != 0
    ensures ArgumentsAre(argv, strings) <==>
              && |strings| <= 15 && |Packed(strings)| <= 2048
              && if argv.NoVector? then strings == []
                 else
                   && argv.entry(|strings|).Null?
                   && forall i :: 0 <= i < |strings| ==>
                        && argv.entry(i).Text? && argv.entry(i).at(|strings[i]|) == 0
                        && forall k ::
                             0 <= k < |strings[i]| ==> argv.entry(i).at(k) == strings[i][k] && strings[i][k] != 0
  {
  }

  lemma StringUnique(t: nat -> Byte, s: seq<Byte>, s': seq<Byte>)
    requires IsString(t, s) && IsString(t, s')
    ensures s == s'
  {
    assert t(|s|) == 0 && t(|s'|) == 0;
    assert forall i: nat :: i < |s| || i < |s'| ==> t(i) != 0;
  }

  lemma {:induction false} PackedPrefix(strings: seq<seq<Byte>>, k: nat)
    requires k <= |strings|
    ensures |Packed(strings[..k])| <= |Packed(strings)|
  {
    if k < |strings| {
      PackedPrefix(strings[..|strings| - 1], k);
      assert strings[..|strings| - 1][..k] == strings[..k];
    } else {
      assert strings[..k] == strings;
    }
  }

  lemma PackedNext(strings: seq<seq<Byte>>, k: nat)
    requires k < |strings|
    ensures Packed(strings[..k + 1]) == Packed(strings[..k]) + strings[k] + [0]
  {
    assert strings[..k + 1][..k] == strings[..k];
  }

  /** Whatever list of strings the vector holds begins with the strings read so far. */
  lemma ReadSoFar(entry: nat -> Pointer, strings: seq<seq<Byte>>, all: seq<seq<Byte>>)
    requires FirstStrings(entry, strings) && FirstStrings(entry, all) && entry(|all|).Null?
    ensures |strings| <= |all| && all[..|strings|] == strings
  {
    assert entry(|all|).Null? && forall i: nat :: i < |strings| ==> entry(i).Text?;
    forall i | 0 <= i < |strings| && i < |all| ensures all[i] == strings[i] {
      StringUnique(entry(i).at, all[i], strings[i]);
    }
  }

  /** copy_bounded_string: succeeds exactly when a terminator appears within the capacity. */
  method CopyBoundedString(source: Pointer, capacity: nat) returns (ok: bool, s: seq<Byte>)
    ensures ok ==> source.Text? && IsString(source.at, s) && |s| < capacity
    ensures !ok ==> source.Null? || forall i: nat :: i < capacity ==> source.at(i) != 0
  {
    s := [];
    if source.Null? || capacity == 0 { return false, []; }
    var i := 0;
    while i < capacity
      invariant i <= capacity && |s| == i
      invariant forall j :: 0 <= j < i ==> source.at(j) == s[j] && s[j] != 0
    {
      if source.at(i) == 0 { return true, s; }
      s := s + [source.at(i)];
      i := i + 1;
    }
    return false, [];
  }

  /** The loop over argv. */
  method CaptureArguments(entry: nat -> Pointer)
      returns (ok: bool, offsets: seq<nat>, storage: seq<Byte>, ghost strings: seq<seq<Byte>>)
    ensures ok ==> ArgumentsAre(Vector(entry), strings) && LaidOut(strings, offsets, storage)
    ensures !ok ==> forall all :: !ArgumentsAre(Vector(entry), all)
  {
    hide IsString;
    offsets, storage, strings := [], [], [];
    var index := 0;
    while index < ARGUMENT_MAX
      invariant index <= ARGUMENT_MAX && |strings| == index && |storage| <= ARGUMENT_BYTES_MAX
      invariant FirstStrings(entry, strings) && LaidOut(strings, offsets, storage)
    {
      assert strings[..|strings|] == strings;
      if entry(index).Null? { return true, offsets, storage, strings; }
      var remaining := ARGUMENT_BYTES_MAX - |storage|;
      var copied, s := false, [];
      if remaining != 0 { copied, s := CopyBoundedString(entry(index), remaining); }
      if !copied {
        forall all | ArgumentsAre(Vector(entry), all) ensures false { NextFits(entry, strings, all, remaining); }
        return false, [], [], [];
      }
      LaidNext(strings, offsets, storage, s);
      offsets := offsets + [|storage|];
      storage := storage + s + [0];
      strings := strings + [s];
      index := index + 1;
    }
    forall all | ArgumentsAre(Vector(entry), all) ensures false { ReadSoFar(entry, strings, all); }
    return false, [], [], [];
  }

  lemma LaidNext(strings: seq<seq<Byte>>, offsets: seq<nat>, storage: seq<Byte>, s: seq<Byte>)
    requires LaidOut(strings, offsets, storage)
    ensures LaidOut(strings + [s], offsets + [|storage|], storage + s + [0])
  {
    var more := strings + [s];
    assert more[..|strings|] == strings;
    assert forall i :: 0 <= i < |strings| ==> more[..i] == strings[..i];
  }

  /** In any admissible list the next string ends within the remaining space. */
  lemma NextFits(entry: nat -> Pointer, strings: seq<seq<Byte>>, all: seq<seq<Byte>>, remaining: nat)
    requires FirstStrings(entry, strings) && ArgumentsAre(Vector(entry), all) && entry(|strings|).Text?
    requires remaining + |Packed(strings)| == ARGUMENT_BYTES_MAX
    ensures exists i: nat :: i < remaining && entry(|strings|).at(i) == 0
  {
    ReadSoFar(entry, strings, all);
    var k := |strings|;
    PackedNext(all, k);
    PackedPrefix(all, k + 1);
    assert IsString(entry(k).at, all[k]);
    assert entry(k).at(|all[k]|) == 0;
  }

  lemma StringEnds(t: nat -> Byte, s: seq<Byte>)
    requires IsString(t, s)
    ensures t(|s|) == 0
  {
  }

  /** capture_request accepts exactly a terminated non-empty path below 256 bytes, an empty environment, and at most
      fifteen terminated arguments of at most 2048 bytes in all; and it keeps exactly those strings. */
  method CaptureRequest(path: Pointer, argv: Vector, environmentEmpty: bool)
      returns (ok: bool, request: Request, ghost strings: seq<seq<Byte>>)
    ensures ok <==> environmentEmpty && (exists s :: PathIs(path, s)) && exists all :: ArgumentsAre(argv, all)
    ensures ok ==> PathIs(path, request.path) && ArgumentsAre(argv, strings)
    ensures ok ==> LaidOut(strings, request.offsets, request.storage)
  {
    request, strings := Request([], [], []), [];
    var copied, name := CopyBoundedString(path, PATH_MAX);
    if !copied || name == [] {
      forall s | PathIs(path, s) ensures false {
        if copied { StringUnique(path.at, s, name); } else { StringEnds(path.at, s); }
      }
      return false, request, [];
    }
    assert PathIs(path, name);
    if !environmentEmpty { return false, request, []; }
    if argv.NoVector? {
      assert ArgumentsAre(argv, []);
      return true, Request(name, [], []), [];
    }
    var offsets, storage;
    ok, offsets, storage, strings := CaptureArguments(argv.entry);
    assert argv == Vector(argv.entry);
    request := Request(name, offsets, storage);
  }
}
