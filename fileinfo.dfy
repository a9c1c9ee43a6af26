/**
 * The two queries the editor asks of Qt's QFileInfo: the file-name component
 * of a path and the suffix of that name. Their definitions are not part of the
 * editor; they are modelled here after Qt's documented behaviour, for paths
 * whose separator is '/'.
 */
module FileInfo {

  /** Index of the last occurrence of c among the first n characters of s, or -1 when there is none. */
  function LastIndexBefore(s: string, c: char, n: nat): (r: int)
    requires n <= |s|
    ensures -1 <= r < n
    ensures r >= 0 ==> s[r] == c
    ensures forall k :: r < k < n ==> s[k] != c
  {
    if n == 0 then -1
    else if s[n - 1] == c then n - 1
    else LastIndexBefore(s, c, n - 1)
  }

  /** Index of the last occurrence of c in s, or -1 when there is none. */
  function LastIndexOf(s: string, c: char): (r: int)
    ensures -1 <= r < |s|
    ensures r >= 0 ==> s[r] == c
    ensures forall k :: r < k < |s| ==> s[k] != c
  {
    LastIndexBefore(s, c, |s|)
  }

  /** r is a tail of s holding no c, and is either all of s or preceded by a c. */
  predicate IsLastTail(s: string, c: char, r: string)
  {
    && c !in r
    && |r| <= |s| && r == s[|s| - |r|..]
    && (|r| < |s| ==> s[|s| - |r| - 1] == c)
  }

  /** What follows the last c of s is its last tail. */
  lemma TailAfterLast(s: string, c: char, i: int)
    requires i == LastIndexOf(s, c)
    ensures IsLastTail(s, c, s[i + 1..])
  {
    var t := s[i + 1..];
    forall k | 0 <= k < |t| ensures t[k] != c {
      assert t[k] == s[i + 1 + k];
    }
  }

  /**
   * The file-name component of a path: everything after the last '/'.
   * It is the longest tail of the path that holds no '/'.
   */
  function FileName(path: string): string
  {
    path[LastIndexOf(path, '/') + 1..]
  }

  /** The file name is the longest tail of the path without '/'; a path without '/' is its own file name. */
  lemma FileNameIsLastTail(path: string)
    ensures IsLastTail(path, '/', FileName(path))
    ensures '/' !in path ==> FileName(path) == path
  {
    TailAfterLast(path, '/', LastIndexOf(path, '/'));
  }

  /**
   * The suffix of the path's file name: everything after the last '.' of the
   * name, or empty when the name holds no '.'.
   */
  function Suffix(path: string): string
  {
    var name := FileName(path);
    var dot := LastIndexOf(name, '.');
    if dot < 0 then "" else name[dot + 1..]
  }

  /**
   * The suffix is the longest tail of the file name without '.' when the name
   * holds a '.', and empty otherwise; it never holds a '/'.
   */
  lemma SuffixIsLastTail(path: string)
    ensures '/' !in Suffix(path)
    ensures '.' in FileName(path) ==> IsLastTail(FileName(path), '.', Suffix(path))
    ensures '.' !in FileName(path) ==> Suffix(path) == ""
  {
    var name := FileName(path);
    FileNameIsLastTail(path);
    var dot := LastIndexOf(name, '.');
    if dot >= 0 {
      TailAfterLast(name, '.', dot);
      var ext := name[dot + 1..];
      assert Suffix(path) == ext;
      forall k | 0 <= k < |ext| ensures ext[k] != '/' {
        assert ext[k] == name[dot + 1 + k];
      }
    }
  }

  /** Indexing into front + [c] + back, stated without preconditions. */
  lemma JoinAt(front: string, c: char, back: string, k: int)
    ensures 0 <= k < |front| ==> (front + [c] + back)[k] == front[k]
    ensures k == |front| ==> (front + [c] + back)[k] == c
    ensures |front| < k < |front| + 1 + |back| ==> (front + [c] + back)[k] == back[k - |front| - 1]
  {
  }

  /** The last tail of s after c is exactly what follows its last c. */
  lemma {:induction false} LastTailIsUnique(s: string, c: char, front: string, back: string, r: string)
    requires s == front + [c] + back && c !in back
    requires IsLastTail(s, c, r)
    ensures r == back
  {
    if |r| > |back| {
      JoinAt(front, c, back, |front|);
      assert false;
    } else if |r| < |back| {
      JoinAt(front, c, back, |s| - |r| - 1);
      assert false;
    }
    assert s[|s| - |r|..] == back;
  }

  lemma FileNameOfJoin(dir: string, name: string)
    requires '/' !in name
    ensures FileName(dir + "/" + name) == name
  {
    var p := dir + "/" + name;
    FileNameIsLastTail(p);
    LastTailIsUnique(p, '/', dir, name, FileName(p));
  }

  lemma SuffixOfJoin(dir: string, base: string, ext: string)
    requires '/' !in base && '/' !in ext && '.' !in ext
    ensures Suffix(dir + "/" + base + "." + ext) == ext
  {
    var name := base + "." + ext;
    assert '/' !in name by {
      forall k | 0 <= k < |name| ensures name[k] != '/' {
        if k < |base| { assert name[k] == base[k]; }
        else if k > |base| { assert name[k] == ext[k - |base| - 1]; }
      }
    }
    assert dir + "/" + base + "." + ext == dir + "/" + name;
    FileNameOfJoin(dir, name);
    assert '.' in name by { assert name[|base|] == '.'; }
    SuffixIsLastTail(dir + "/" + name);
    LastTailIsUnique(name, '.', base, ext, Suffix(dir + "/" + name));
  }
}
