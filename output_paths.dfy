/** Where runModule writes a module's output: the image base name (everything
    after the last path separator) and the per-module CSV path built from it.
    The separator is a parameter (os.PathSeparator in the program). */
module OutputPaths {

  /** strings.LastIndex for a one-character needle: the position of the last
      occurrence of c in s, or -1 when s does not contain c. */
  function LastIndex(s: string, c: char): (r: int)
    ensures -1 <= r < |s|
    ensures r >= 0 ==> s[r] == c
    ensures forall j :: r < j < |s| ==> s[j] != c
  {
    if |s| == 0 then -1
    else if s[|s| - 1] == c then |s| - 1
    else LastIndex(s[..|s| - 1], c)
  }

  /** The memory image's file name: the slice after the last separator. */
  function ImageBaseName(image: string, sep: char): (r: string)
    ensures sep !in r
    ensures |r| <= |image| && r == image[|image| - |r|..]
    ensures |r| < |image| ==> image[|image| - |r| - 1] == sep
    ensures sep !in image ==> r == image
  {
    image[LastIndex(image, sep) + 1..]
  }

  /** The output file of one module: outputDir, separator, image base name,
      "_", module name, ".csv". */
  function OutputPath(outputDir: string, image: string, moduleName: string, sep: char): (r: string)
    ensures |r| == |outputDir| + |ImageBaseName(image, sep)| + |moduleName| + 6
  {
    outputDir + [sep] + ImageBaseName(image, sep) + "_" + moduleName + ".csv"
  }

  /** The output path starts with outputDir and a separator, ends in ".csv",
      and in between holds the image base name, "_" and the module name. */
  lemma OutputPathShape(outputDir: string, image: string, moduleName: string, sep: char)
    ensures var r := OutputPath(outputDir, image, moduleName, sep);
      var b := |outputDir| + 1 + |ImageBaseName(image, sep)|;
      && |r| == b + 1 + |moduleName| + 4
      && r[..|outputDir|] == outputDir && r[|outputDir|] == sep
      && r[|outputDir| + 1..b] == ImageBaseName(image, sep)
      && r[b] == '_' && r[b + 1..b + 1 + |moduleName|] == moduleName
      && r[|r| - 4..] == ".csv"
  {
  }

  /** The last occurrence of c in a + b is in b when b contains c, and is the
      last occurrence in a otherwise. */
  lemma {:induction false} LastIndexAppend(a: string, b: string, c: char)
    ensures LastIndex(a + b, c) == if c in b then |a| + LastIndex(b, c) else LastIndex(a, c)
    decreases |b|
  {
    if |b| == 0 {
      assert a + b == a;
    } else {
      var ab := a + b;
      assert ab[..|ab| - 1] == a + b[..|b| - 1];
      if b[|b| - 1] != c {
        LastIndexAppend(a, b[..|b| - 1], c);
        assert c in b <==> c in b[..|b| - 1] by {
          assert b == b[..|b| - 1] + [b[|b| - 1]];
        }
      }
    }
  }

  /** With a separator such as '/' or '\\' (none of "_.csv") and a module name
      without one, the file lands directly in outputDir:
      the last separator of the path is the one after outputDir, and the
      file name is "<image base name>_<module>.csv". */
  lemma OutputFileIsInOutputDir(outputDir: string, image: string, moduleName: string, sep: char)
    requires sep != '_' && sep !in ".csv" && sep !in moduleName
    ensures LastIndex(OutputPath(outputDir, image, moduleName, sep), sep) == |outputDir|
    ensures ImageBaseName(OutputPath(outputDir, image, moduleName, sep), sep)
         == ImageBaseName(image, sep) + "_" + moduleName + ".csv"
  {
    var base := ImageBaseName(image, sep);
    var tail := base + "_" + moduleName + ".csv";
    assert sep !in tail by {
      assert forall k :: 0 <= k < |tail| ==> tail[k] != sep by {
        forall k | 0 <= k < |tail| ensures tail[k] != sep {
          if k < |base| {
            assert tail[k] == base[k];
          } else if k == |base| {
            assert tail[k] == '_';
          } else if k < |base| + 1 + |moduleName| {
            assert tail[k] == moduleName[k - |base| - 1];
          } else {
            assert tail[k] == ".csv"[k - |base| - 1 - |moduleName|];
          }
        }
      }
    }
    var head := outputDir + [sep];
    assert OutputPath(outputDir, image, moduleName, sep) == head + tail;
    LastIndexAppend(head, tail, sep);
    assert LastIndex(head, sep) == |outputDir|;
  }

  /** Distinct modules never share an output file, while a repeated module
      (or a rerun) writes the same file again. */
  lemma OutputPathInjective(outputDir: string, image: string, m1: string, m2: string, sep: char)
    ensures OutputPath(outputDir, image, m1, sep) == OutputPath(outputDir, image, m2, sep) <==> m1 == m2
  {
    var p1 := OutputPath(outputDir, image, m1, sep);
    var p2 := OutputPath(outputDir, image, m2, sep);
    if p1 == p2 {
      OutputPathShape(outputDir, image, m1, sep);
      OutputPathShape(outputDir, image, m2, sep);
    }
  }
}
