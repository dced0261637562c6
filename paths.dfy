/**
 * The parts of a Unix path that `std::path::Path` reports: the final
 * component (`file_name`) and its split at the last '.' into
 * `file_stem` and `extension`.
 */
module Paths {
  import opened Wrappers
  import opened Text

  /** The pieces that are components: empty pieces (repeated or trailing '/') and "." pieces are not. */
  function Named(pieces: seq<string>): (r: seq<string>)
    ensures forall i :: 0 <= i < |r| ==> r[i] != "" && r[i] != "." && r[i] in pieces
    ensures forall p :: p in pieces && p != "" && p != "." ==> p in r
    decreases |pieces|
  {
    if pieces == [] then []
    else
      var init, last := pieces[..|pieces| - 1], pieces[|pieces| - 1];
      var named := Named(init);
      assert pieces == init + [last];
      if last == "" || last == "." then named else named + [last]
  }

  /** A single piece is one component, unless it is empty or ".". */
  lemma NamedSingle(p: string)
    ensures Named([p]) == if p == "" || p == "." then [] else [p]
  {
    assert [p][..0] == [];
  }

  /** Components are kept in their order: the components of consecutive pieces follow one another. */
  lemma {:induction false} NamedAppend(a: seq<string>, b: seq<string>)
    ensures Named(a + b) == Named(a) + Named(b)
    decreases |b|
  {
    if b == [] {
      assert a + b == a;
    } else {
      var init := b[..|b| - 1];
      NamedAppend(a, init);
      assert (a + b)[..|a + b| - 1] == a + init;
      assert (a + b)[|a + b| - 1] == b[|b| - 1];
    }
  }

  /** `Path::file_name`: the last component, unless the path ends in ".." or has no components. */
  function FileName(path: string): (r: Option<string>)
    ensures r.Some? ==> r.value != "" && r.value != "." && r.value != ".." && '/' !in r.value
  {
    var named := Named(Split(path, '/'));
    if named == [] || named[|named| - 1] == ".." then None else Some(named[|named| - 1])
  }

  /** `Path::extension`: what follows the last '.' of the file name, unless that '.' begins the name. */
  function Extension(path: string): Option<string> {
    match FileName(path)
    case None => None
    case Some(name) =>
      match LastIndexOf(name, '.')
      case None => None
      case Some(k) => if k == 0 then None else Some(name[k + 1..])
  }

  /** `Path::file_stem`: the file name up to its last '.', or all of it when there is no extension. */
  function FileStem(path: string): (r: Option<string>)
    ensures r.Some? ==> r.value != "" && '/' !in r.value
  {
    match FileName(path)
    case None => None
    case Some(name) =>
      match LastIndexOf(name, '.')
      case None => Some(name)
      case Some(k) =>
        if k == 0 then Some(name)
        else
          assert forall c :: c in name[..k] ==> c in name;
          Some(name[..k])
  }

  /** A name that is a single component is its own file name. */
  lemma PlainFileName(name: string)
    requires name != "" && name != "." && name != ".." && '/' !in name
    ensures FileName(name) == Some(name)
  {
    assert Split(name, '/') == [name];
    assert Named([name]) == Named([]) + [name];
  }

  /** The directories in front of a file name do not change it. */
  lemma FileNameIgnoresDirectory(dir: string, name: string)
    requires name != "" && name != "." && name != ".." && '/' !in name
    ensures FileName(dir + "/" + name) == Some(name)
  {
    SplitAround(dir, '/', name);
    assert Split(name, '/') == [name];
    var pieces := Split(dir, '/') + [name];
    assert pieces[..|pieces| - 1] == Split(dir, '/');
  }

  /** The stem and the extension together give back the file name. */
  lemma StemAndExtensionMakeTheName(path: string)
    requires FileName(path).Some?
    ensures FileStem(path).Some?
    ensures Extension(path).None? ==> FileStem(path) == FileName(path)
    ensures Extension(path).Some? ==> FileName(path).value == FileStem(path).value + "." + Extension(path).value
  {
    var name := FileName(path).value;
    var k := LastIndexOf(name, '.');
    if k.Some? && k.value != 0 {
      assert name == name[..k.value] + "." + name[k.value + 1..];
    }
  }

  /** The extension of a file name never holds a '.' or a '/'. */
  lemma ExtensionIsPlain(path: string)
    requires Extension(path).Some?
    ensures '.' !in Extension(path).value && '/' !in Extension(path).value
  {
    var name := FileName(path).value;
    var k := LastIndexOf(name, '.').value;
    assert forall c :: c in name[k + 1..] ==> c in name;
  }
}
