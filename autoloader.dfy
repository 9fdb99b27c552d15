/**
 * The class loader of app/Core/Autoloader.php: a class in the `App\` namespace is loaded from
 * ROOT_PATH + "/" + the rest of its name, namespace separators turned into '/', + ".php", and
 * only when that file exists. ROOT_PATH and `file_exists` are parameters; `require_once` is the
 * returned outcome.
 */
module Autoloader {
  import opened Wrappers
  import opened Strs

  /** `'App\\'`: the application's base namespace, four characters. */
  const Prefix: string := "App\\"

  /** What `autoload` does: nothing, or `require_once` of one file. */
  datatype Load = NoLoad | Require(file: string)

  /** Line 35: the class name without the prefix, when it starts with it (line 30). */
  function RelativeClass(className: string): (r: Option<string>)
    ensures r.Some? <==> StartsWith(className, Prefix)
    ensures r.Some? ==> className == Prefix + r.value
  {
    if StartsWith(className, Prefix) then
      assert className == className[..|Prefix|] + className[|Prefix|..];
      Some(className[|Prefix|..])
    else None
  }

  /** Line 38: the file a class in the base namespace is looked up in. */
  function FilePath(root: string, className: string): (r: Option<string>)
    ensures r.Some? <==> StartsWith(className, Prefix)
  {
    match RelativeClass(className)
    case Some(relative) => Some(root + "/" + ReplaceChar(relative, '\\', '/') + ".php")
    case None => None
  }

  /** `autoload`: the computed file is required when it exists; nothing happens otherwise. */
  function Autoload(root: string, className: string, fileExists: string -> bool): (r: Load)
    ensures r.Require? <==> FilePath(root, className).Some? && fileExists(FilePath(root, className).value)
    ensures r.Require? ==> r.file == FilePath(root, className).value
  {
    match FilePath(root, className)
    case Some(file) => if fileExists(file) then Require(file) else NoLoad
    case None => NoLoad
  }

  /**
   * The shape of the path: ROOT_PATH, '/', then the class name after its prefix character for
   * character with every '\' turned into '/', then ".php"; the part between holds no backslash.
   */
  lemma {:induction false} FilePathShape(root: string, className: string)
    requires StartsWith(className, Prefix)
    ensures var f := FilePath(root, className).value;
      var n := |className| - |Prefix|;
      && |f| == |root| + 1 + n + 4
      && f[..|root| + 1] == root + "/"
      && f[|root| + 1 + n..] == ".php"
      && (forall j :: |Prefix| <= j < |className| ==>
            f[|root| + 1 - |Prefix| + j] == if className[j] == '\\' then '/' else className[j])
      && Free(f[|root| + 1..|root| + 1 + n], '\\')
  {
    var relative := className[|Prefix|..];
    var middle := ReplaceChar(relative, '\\', '/');
    assert FilePath(root, className) == Some(root + "/" + middle + ".php");
    PathLayout(root, middle);
    forall j | |Prefix| <= j < |className|
      ensures middle[j - |Prefix|] == if className[j] == '\\' then '/' else className[j]
    {
      assert relative[j - |Prefix|] == className[j];
    }
  }

  /** Where the root, the slash, the middle part and ".php" sit in the path. */
  lemma {:induction false} PathLayout(root: string, middle: string)
    ensures var f := root + "/" + middle + ".php";
      && |f| == |root| + 1 + |middle| + 4
      && f[..|root| + 1] == root + "/"
      && f[|root| + 1 + |middle|..] == ".php"
      && f[|root| + 1..|root| + 1 + |middle|] == middle
      && forall i :: 0 <= i < |middle| ==> f[|root| + 1 + i] == middle[i]
  {
    var f := root + "/" + middle + ".php";
    assert f[|root| + 1..|root| + 1 + |middle|] == middle;
    assert forall i :: 0 <= i < |middle| ==> f[|root| + 1 + i] == middle[i];
  }

  /** Turning '\' into '/' loses nothing in a name that has no '/' of its own. */
  lemma {:induction false} ReplaceCharInverse(s: string)
    requires Free(s, '/')
    ensures ReplaceChar(ReplaceChar(s, '\\', '/'), '/', '\\') == s
  {
    if s != [] {
      assert ReplaceChar(s, '\\', '/')[1..] == ReplaceChar(s[1..], '\\', '/');
      ReplaceCharInverse(s[1..]);
    }
  }

  /**
   * Two classes of the base namespace whose names contain no '/' are looked up in the same file
   * only when they are the same class.
   */
  lemma {:induction false} FilePathInjective(root: string, a: string, b: string)
    requires StartsWith(a, Prefix) && StartsWith(b, Prefix) && Free(a, '/') && Free(b, '/')
    requires FilePath(root, a) == FilePath(root, b)
    ensures a == b
  {
    var ra, rb := a[|Prefix|..], b[|Prefix|..];
    assert Free(ra, '/') by { assert forall j :: 0 <= j < |ra| ==> ra[j] == a[|Prefix| + j]; }
    assert Free(rb, '/') by { assert forall j :: 0 <= j < |rb| ==> rb[j] == b[|Prefix| + j]; }
    var ma, mb := ReplaceChar(ra, '\\', '/'), ReplaceChar(rb, '\\', '/');
    assert root + "/" + ma + ".php" == root + "/" + mb + ".php";
    assert |ma| == |mb|;
    assert ma == (root + "/" + ma + ".php")[|root| + 1..|root| + 1 + |ma|];
    assert mb == (root + "/" + mb + ".php")[|root| + 1..|root| + 1 + |mb|];
    ReplaceCharInverse(ra);
    ReplaceCharInverse(rb);
    assert a == Prefix + ra && b == Prefix + rb;
  }

  /**
   * The prefix is removed once only: `App\App\Foo` is looked up as ROOT_PATH + "/App/Foo.php",
   * and in general `App\` + rest maps to the path of rest.
   */
  lemma {:induction false} PrefixRemovedOnce(root: string, rest: string)
    ensures FilePath(root, Prefix + rest) == Some(root + "/" + ReplaceChar(rest, '\\', '/') + ".php")
    ensures FilePath(root, Prefix + Prefix + rest) == Some(root + "/App/" + ReplaceChar(rest, '\\', '/') + ".php")
  {
    assert (Prefix + rest)[..|Prefix|] == Prefix && (Prefix + rest)[|Prefix|..] == rest;
    var twice := Prefix + (Prefix + rest);
    assert Prefix + Prefix + rest == twice;
    assert twice[..|Prefix|] == Prefix && twice[|Prefix|..] == Prefix + rest;
    ReplaceCharAppend(Prefix, rest, '\\', '/');
    var p := ReplaceChar(Prefix, '\\', '/');
    assert |p| == 4 && p[0] == 'A' && p[1] == 'p' && p[2] == 'p' && p[3] == '/';
    assert p == "App/";
    assert root + "/" + (p + ReplaceChar(rest, '\\', '/')) + ".php"
        == root + "/App/" + ReplaceChar(rest, '\\', '/') + ".php";
  }

  /** Replacing in a concatenation replaces in each part. */
  lemma {:induction false} ReplaceCharAppend(a: string, b: string, from: char, to: char)
    ensures ReplaceChar(a + b, from, to) == ReplaceChar(a, from, to) + ReplaceChar(b, from, to)
  {
    var l, r := ReplaceChar(a + b, from, to), ReplaceChar(a, from, to) + ReplaceChar(b, from, to);
    assert |l| == |r|;
    forall i | 0 <= i < |l| ensures l[i] == r[i] {
      if i < |a| {
        assert (a + b)[i] == a[i];
      } else {
        assert (a + b)[i] == b[i - |a|];
      }
    }
  }

  /** A class outside the base namespace never causes a load, whatever files exist. */
  lemma {:induction false} OutsideNamespace(root: string, className: string, fileExists: string -> bool)
    requires !StartsWith(className, Prefix)
    ensures Autoload(root, className, fileExists) == NoLoad
  {
  }
}
