/**
 * The pure parts of the `DrawDependency` tool: the multimap `foundDependencies` as its
 * entry sequence in iteration order (a class by simple name, and one of its formatted
 * dependencies), the pruning pass, the dependency formatting, the class name derived
 * from a source path, the repeat count read from the console, and the DOT text.
 */
module DrawDependency {
  import opened Optional
  import opened Text

  const RootPackage: string := "fr.xephi.authme"
  const JavaSuffix: string := ".java"

  /** One entry of `foundDependencies`: a class by simple name and one of its dependencies. */
  datatype Entry = Entry(key: string, value: string)

  // ---------------------------------------------------------------------------
  // Subsequences
  // ---------------------------------------------------------------------------

  /** `a` is `b` with some elements removed and the rest kept in order. */
  predicate IsSubsequence<T(==)>(a: seq<T>, b: seq<T>)
    decreases |b|
  {
    a == [] || (b != [] && ((a[0] == b[0] && IsSubsequence(a[1..], b[1..])) || IsSubsequence(a, b[1..])))
  }

  lemma {:induction false} SubsequenceTransitive<T>(a: seq<T>, b: seq<T>, c: seq<T>)
    requires IsSubsequence(a, b) && IsSubsequence(b, c)
    ensures IsSubsequence(a, c)
    decreases |c|
  {
    if a != [] {
      assert b != [] && c != [];
      if IsSubsequence(b, c[1..]) {
        SubsequenceTransitive(a, b, c[1..]);
      } else if IsSubsequence(a, b[1..]) {
        SubsequenceTransitive(a, b[1..], c[1..]);
      } else {
        SubsequenceTransitive(a[1..], b[1..], c[1..]);
      }
    }
  }

  lemma {:induction false} SubsequenceReflexive<T>(a: seq<T>)
    ensures IsSubsequence(a, a)
    decreases |a|
  {
    if a != [] {
      SubsequenceReflexive(a[1..]);
    }
  }

  // ---------------------------------------------------------------------------
  // Pruning
  // ---------------------------------------------------------------------------

  /** The entries whose key passes `keep`, in their original order: the iterator removal loop. */
  function KeepEntries(es: seq<Entry>, keep: string -> bool): (r: seq<Entry>)
    ensures IsSubsequence(r, es)
    ensures forall e :: e in r <==> e in es && keep(e.key)
    decreases |es|
  {
    if es == [] then []
    else
      var rest := KeepEntries(es[1..], keep);
      assert forall e :: e in es <==> e == es[0] || e in es[1..] by {
        assert es == [es[0]] + es[1..];
      }
      if keep(es[0].key) then
        var r := [es[0]] + rest;
        assert r[0] == es[0] && r[1..] == rest;
        r
      else rest
  }

  /** Every copy of a kept entry is kept: the count of each entry is its full count or zero. */
  lemma {:induction false} KeepEntriesCounts(es: seq<Entry>, keep: string -> bool)
    ensures forall e :: multiset(KeepEntries(es, keep))[e] == (if keep(e.key) then multiset(es)[e] else 0)
    decreases |es|
  {
    if es != [] {
      KeepEntriesCounts(es[1..], keep);
      assert es == [es[0]] + es[1..];
      assert multiset(es) == multiset([es[0]]) + multiset(es[1..]);
      if keep(es[0].key) {
        assert KeepEntries(es, keep) == [es[0]] + KeepEntries(es[1..], keep);
      }
    }
  }

  /** A keep rule that is weaker on every present key keeps a subsequence. */
  lemma {:induction false} KeepEntriesMonotone(es: seq<Entry>, keep: string -> bool, wider: string -> bool)
    requires forall e :: e in es && keep(e.key) ==> wider(e.key)
    ensures IsSubsequence(KeepEntries(es, keep), KeepEntries(es, wider))
    decreases |es|
  {
    if es != [] {
      assert forall e :: e in es[1..] ==> e in es;
      KeepEntriesMonotone(es[1..], keep, wider);
      var a := KeepEntries(es, keep);
      var b := KeepEntries(es, wider);
      var a' := KeepEntries(es[1..], keep);
      var b' := KeepEntries(es[1..], wider);
      if keep(es[0].key) {
        assert a == [es[0]] + a' && b == [es[0]] + b';
        assert a[1..] == a' && b[1..] == b';
      } else if wider(es[0].key) {
        assert a == a' && b == [es[0]] + b';
        assert b[1..] == b';
        if a != [] {
          assert IsSubsequence(a, b[1..]);
        }
      }
    }
  }

  /**
   * The flag map of `stripNodesWithNoOutgoingEdges`: for each entry in order the key is
   * flagged FALSE, then the value is flagged TRUE.
   */
  function Flags(es: seq<Entry>): map<string, bool>
    decreases |es|
  {
    if es == [] then map[]
    else
      var last := es[|es| - 1];
      Flags(es[..|es| - 1])[last.key := false][last.value := true]
  }

  predicate Mentions(e: Entry, name: string)
  {
    e.key == name || e.value == name
  }

  /** Entry `i` is the last one that writes the flag of `name`. */
  predicate IsLastMention(es: seq<Entry>, name: string, i: int)
  {
    0 <= i < |es| && Mentions(es[i], name) && forall j :: i < j < |es| ==> !Mentions(es[j], name)
  }

  /**
   * Last write wins: a name has a flag iff some entry mentions it, and its flag is TRUE
   * iff the last entry mentioning it has it as the value (the value write comes after
   * the key write, so a self-edge counts as a value write).
   */
  lemma {:induction false} FlagsLastWrite(es: seq<Entry>, name: string)
    ensures name in Flags(es) <==> exists i :: 0 <= i < |es| && Mentions(es[i], name)
    ensures name in Flags(es) && Flags(es)[name] <==>
      exists i :: IsLastMention(es, name, i) && es[i].value == name
    ensures name in Flags(es) && !Flags(es)[name] <==>
      exists i :: IsLastMention(es, name, i) && es[i].value != name
    decreases |es|
  {
    if es != [] {
      var n := |es| - 1;
      var prefix := es[..n];
      var last := es[n];
      if Mentions(last, name) {
        assert IsLastMention(es, name, n);
        LastMentionUnique(es, name, n);
        assert name in Flags(es) && Flags(es)[name] == (last.value == name);
      } else {
        FlagsLastWrite(prefix, name);
        FlagsSkipLast(es, name);
      }
    }
  }

  lemma LastMentionUnique(es: seq<Entry>, name: string, i: int)
    requires IsLastMention(es, name, i)
    ensures forall j :: IsLastMention(es, name, j) ==> j == i
  {
  }

  /** An entry that does not mention the name changes neither its flag nor its last mention. */
  lemma FlagsSkipLast(es: seq<Entry>, name: string)
    requires es != [] && !Mentions(es[|es| - 1], name)
    ensures var prefix := es[..|es| - 1];
      && (name in Flags(es) <==> name in Flags(prefix))
      && (name in Flags(es) ==> Flags(es)[name] == Flags(prefix)[name])
      && (forall i :: IsLastMention(es, name, i) <==> IsLastMention(prefix, name, i))
      && ((exists i :: 0 <= i < |es| && Mentions(es[i], name))
          <==> (exists i :: 0 <= i < |prefix| && Mentions(prefix[i], name)))
  {
    var n := |es| - 1;
    var prefix := es[..n];
    assert forall j :: 0 <= j < n ==> prefix[j] == es[j];
    forall i
      ensures IsLastMention(es, name, i) <==> IsLastMention(prefix, name, i)
    {
      if IsLastMention(prefix, name, i) {
        assert forall j :: i < j < |es| ==> !Mentions(es[j], name) by {
          forall j | i < j < |es| ensures !Mentions(es[j], name) {
            if j < n {
              assert prefix[j] == es[j];
            }
          }
        }
      }
    }
    if exists i :: 0 <= i < |es| && Mentions(es[i], name) {
      var i :| 0 <= i < |es| && Mentions(es[i], name);
      assert i < n && Mentions(prefix[i], name);
    }
  }

  /** `!Boolean.FALSE.equals(dependencies.get(name))`: an unflagged name would also stay. */
  predicate Survives(flags: map<string, bool>, name: string)
  {
    !(name in flags && !flags[name])
  }

  /**
   * One pruning pass. It only removes: the result is a subsequence of the entries. The
   * decision depends on the key alone, so all entries of one key stay or go together.
   */
  function Strip(es: seq<Entry>): (r: seq<Entry>)
    ensures IsSubsequence(r, es)
    ensures forall i, j :: 0 <= i < |es| && 0 <= j < |es| && es[i].key == es[j].key ==>
      (es[i] in r <==> es[j] in r)
  {
    var flags := Flags(es);
    KeepEntries(es, name => Survives(flags, name))
  }

  /** A pass keeps every duplicate copy of an entry it keeps. */
  lemma StripKeepsEveryCopy(es: seq<Entry>)
    ensures forall e :: multiset(Strip(es))[e] == (if e in Strip(es) then multiset(es)[e] else 0)
  {
    var flags := Flags(es);
    KeepEntriesCounts(es, name => Survives(flags, name));
  }

  /** An entry survives exactly when the last entry mentioning its key has that key as its value. */
  lemma StripKeepsLastWrittenTrue(es: seq<Entry>, e: Entry)
    requires e in es
    ensures e in Strip(es) <==> exists i :: IsLastMention(es, e.key, i) && es[i].value == e.key
  {
    FlagsLastWrite(es, e.key);
    var k :| 0 <= k < |es| && es[k] == e;
    assert Mentions(es[k], e.key);
  }

  /** A key that is never any entry's value loses all of its entries. */
  lemma UnusedKeyStripped(es: seq<Entry>, name: string)
    requires forall i :: 0 <= i < |es| ==> es[i].value != name
    ensures forall e :: e in Strip(es) ==> e.key != name
  {
    FlagsLastWrite(es, name);
    forall e | e in Strip(es)
      ensures e.key != name
    {
      if e.key == name {
        StripKeepsLastWrittenTrue(es, e);
      }
    }
  }

  /** A key whose last mention is a self-edge keeps all of its entries. */
  lemma SelfEdgeKeepsKey(es: seq<Entry>, name: string, i: int)
    requires IsLastMention(es, name, i) && es[i] == Entry(name, name)
    ensures forall e :: e in es && e.key == name ==> e in Strip(es)
  {
    forall e | e in es && e.key == name
      ensures e in Strip(es)
    {
      StripKeepsLastWrittenTrue(es, e);
    }
  }

  /** The loop `for (i = 0; i < count; ++i) stripNodesWithNoOutgoingEdges();`. */
  function StripTimes(es: seq<Entry>, count: int): (r: seq<Entry>)
    ensures IsSubsequence(r, es)
    decreases count
  {
    if count <= 0 then
      SubsequenceReflexive(es);
      es
    else
      var r := StripTimes(Strip(es), count - 1);
      SubsequenceTransitive(r, Strip(es), es);
      r
  }

  /** `Integer.valueOf(scanner.nextLine())`, with 0 on `NumberFormatException`. */
  function RepeatCount(line: string): (n: int)
    ensures ParseInt(line).None? ==> n == 0
    ensures ParseInt(line).Some? ==> n == ParseInt(line).value
    ensures IntMin <= n <= IntMax
  {
    match ParseInt(line)
    case None => 0
    case Some(n) => n
  }

  /** A console answer that is not a number strips nothing, as does zero or a negative count. */
  lemma NonNumericKeepsGraph(es: seq<Entry>, line: string)
    requires ParseInt(line).None? || ParseInt(line).value <= 0
    ensures StripTimes(es, RepeatCount(line)) == es
  {
  }

  /** An entered count strips exactly that many times. */
  lemma EnteredCountStrips(es: seq<Entry>, n: nat)
    requires n <= IntMax
    ensures StripTimes(es, RepeatCount(ShowNat(n))) == StripTimes(es, n)
  {
    ParseShow(n);
  }

  // ---------------------------------------------------------------------------
  // The pruning the documentation describes
  // ---------------------------------------------------------------------------

  predicate UsedAsDependency(es: seq<Entry>, name: string)
  {
    exists i :: 0 <= i < |es| && es[i].value == name
  }

  /** Removes exactly the entries of classes that are no entry's dependency. */
  function StripUnused(es: seq<Entry>): (r: seq<Entry>)
    ensures IsSubsequence(r, es)
    ensures forall e :: e in r <==> e in es && UsedAsDependency(es, e.key)
    ensures forall e :: multiset(r)[e] == (if UsedAsDependency(es, e.key) then multiset(es)[e] else 0)
  {
    KeepEntriesCounts(es, name => UsedAsDependency(es, name));
    KeepEntries(es, name => UsedAsDependency(es, name))
  }

  /** The pass as written removes at least what the documented pass removes. */
  lemma StripWithinIntended(es: seq<Entry>)
    ensures IsSubsequence(Strip(es), StripUnused(es))
  {
    var flags := Flags(es);
    forall e | e in es && Survives(flags, e.key)
      ensures UsedAsDependency(es, e.key)
    {
      FlagsLastWrite(es, e.key);
      var k :| 0 <= k < |es| && es[k] == e;
      assert Mentions(es[k], e.key);
      var i :| IsLastMention(es, e.key, i) && es[i].value == e.key;
    }
    KeepEntriesMonotone(es, name => Survives(flags, name), name => UsedAsDependency(es, name));
  }

  /**
   * A dependency of an earlier class is still removed when its own entries come later:
   * with `a -> b` listed before `b -> c`, the pass as written removes every entry,
   * although `a` uses `b`; the documented pass keeps `b -> c`.
   */
  lemma StripRemovesUsedDependency(a: string, b: string, c: string)
    requires a != b && b != c && a != c
    ensures Strip([Entry(a, b), Entry(b, c)]) == []
    ensures StripUnused([Entry(a, b), Entry(b, c)]) == [Entry(b, c)]
  {
    var es := [Entry(a, b), Entry(b, c)];
    assert IsLastMention(es, a, 0);
    LastMentionUnique(es, a, 0);
    StripKeepsLastWrittenTrue(es, es[0]);
    assert IsLastMention(es, b, 1);
    LastMentionUnique(es, b, 1);
    StripKeepsLastWrittenTrue(es, es[1]);
    var flags := Flags(es);
    var survives := name => Survives(flags, name);
    assert !survives(a) && !survives(b);
    assert es[1..] == [Entry(b, c)] && es[1..][1..] == [];
    assert Strip(es) == KeepEntries(es, survives) == KeepEntries(es[1..], survives);
    assert UsedAsDependency(es, b) by { assert es[0].value == b; }
    assert !UsedAsDependency(es, a);
    var keep := name => UsedAsDependency(es, name);
    assert KeepEntries(es[1..], keep) == [Entry(b, c)] + KeepEntries([], keep);
    assert StripUnused(es) == KeepEntries(es, keep) == KeepEntries(es[1..], keep);
  }

  // ---------------------------------------------------------------------------
  // Dependency formatting
  // ---------------------------------------------------------------------------

  /**
   * `formatInjectionDependencies`: one element per dependency, `"@"` plus the
   * annotation's simple name where there is an annotation, the dependency's simple name
   * otherwise. Since a simple class name never starts with `@`, the two kinds of element
   * cannot be confused.
   */
  method FormatInjectionDependencies(dependencies: seq<string>, annotations: seq<Option<string>>)
    returns (result: seq<string>)
    requires |annotations| >= |dependencies|
    ensures |result| == |dependencies|
    ensures forall i :: 0 <= i < |dependencies| && annotations[i].Some? ==>
      result[i] == "@" + annotations[i].value
    ensures forall i :: 0 <= i < |dependencies| && annotations[i].None? ==> result[i] == dependencies[i]
    ensures forall i :: 0 <= i < |dependencies| && (dependencies[i] == [] || dependencies[i][0] != '@') ==>
      (annotations[i].Some? <==> result[i] != [] && result[i][0] == '@')
  {
    result := [];
    var i := 0;
    while i < |dependencies|
      invariant 0 <= i <= |dependencies|
      invariant |result| == i
      invariant forall j :: 0 <= j < i && annotations[j].Some? ==> result[j] == "@" + annotations[j].value
      invariant forall j :: 0 <= j < i && annotations[j].None? ==> result[j] == dependencies[j]
    {
      match annotations[i] {
        case Some(a) => result := result + ["@" + a];
        case None => result := result + [dependencies[i]];
      }
      i := i + 1;
    }
  }

  // ---------------------------------------------------------------------------
  // Class name from a source path
  // ---------------------------------------------------------------------------

  /** What `loadClass` does with a path before the class loader: null, an exception, or a name. */
  datatype ClassLookup = NotJavaFile | PackageNotInPath | ClassName(name: string)

  /** `file.getPath().replace(File.separator, ".")`. */
  function DottedPath(path: string, separator: char): string
  {
    ReplaceChar(path, separator, '.')
  }

  /**
   * Paths not ending in `.java` give null; otherwise the name runs from the first
   * occurrence of the root package to just before `.java`. When the package does not
   * occur, `substring(-1, …)` throws.
   */
  function ClassNameOf(path: string, separator: char): (r: ClassLookup)
    ensures r.NotJavaFile? <==> !EndsWith(DottedPath(path, separator), JavaSuffix)
    ensures r.PackageNotInPath? <==>
      EndsWith(DottedPath(path, separator), JavaSuffix) && IndexOf(DottedPath(path, separator), RootPackage) == -1
    ensures r.ClassName? ==>
      var dotted := DottedPath(path, separator);
      var start := |dotted| - |JavaSuffix| - |r.name|;
      && 0 <= start
      && dotted[start..] == r.name + JavaSuffix
      && OccursAt(dotted, RootPackage, start)
      && (forall j :: 0 <= j < start ==> !OccursAt(dotted, RootPackage, j))
      && (separator != '.' ==> separator !in r.name)
  {
    var dotted := DottedPath(path, separator);
    if !EndsWith(dotted, JavaSuffix) then NotJavaFile
    else
      var start := IndexOf(dotted, RootPackage);
      if start < 0 then PackageNotInPath
      else
        var name := dotted[start..|dotted| - |JavaSuffix|];
        assert dotted[start..] == name + JavaSuffix;
        assert forall c :: c in name ==> c in dotted;
        ClassName(name)
  }

  /** The source file of a class: the class name with dots as separators, under some directory. */
  function SourcePath(dir: string, className: string, separator: char): string
  {
    dir + ReplaceChar(className, '.', separator) + JavaSuffix
  }

  /**
   * Class names round-trip through their source path, as long as the directory part
   * does not already contain the root package and the separator is not a character
   * of the class name or of `.java`.
   */
  lemma ClassNameOfSourcePath(dir: string, className: string, separator: char)
    requires separator !in className && separator !in JavaSuffix
    requires |className| >= |RootPackage| && className[..|RootPackage|] == RootPackage
    requires forall j :: 0 <= j < |dir| ==> !OccursAt(DottedPath(dir, separator) + className, RootPackage, j)
    ensures ClassNameOf(SourcePath(dir, className, separator), separator) == ClassName(className)
  {
    var path := SourcePath(dir, className, separator);
    var dotted := DottedPath(path, separator);
    var prefix := DottedPath(dir, separator) + className;
    assert dotted == prefix + JavaSuffix by {
      assert ReplaceChar(ReplaceChar(className, '.', separator), separator, '.') == className;
      assert ReplaceChar(JavaSuffix, separator, '.') == JavaSuffix;
      assert forall i :: 0 <= i < |dir| ==> dotted[i] == prefix[i];
      assert forall i :: |dir| <= i < |prefix| ==> dotted[i] == prefix[i];
      assert forall i :: |prefix| <= i < |dotted| ==> dotted[i] == JavaSuffix[i - |prefix|];
    }
    assert OccursAt(dotted, RootPackage, |dir|);
    forall j | 0 <= j < |dir|
      ensures !OccursAt(dotted, RootPackage, j)
    {
      assert !OccursAt(prefix, RootPackage, j);
      assert dotted[j..j + |RootPackage|] == prefix[j..j + |RootPackage|];
    }
    assert IndexOf(dotted, RootPackage) == |dir|;
    assert dotted[|dir|..|dotted| - |JavaSuffix|] == className;
  }

  // ---------------------------------------------------------------------------
  // DOT output
  // ---------------------------------------------------------------------------

  const DotHeader: string := "digraph G {\n"
  const DotFooter: string := "\n}"

  /** `"\n" + String.format("\t\"%s\" -> \"%s\";", value, simpleName)`: the edge points from the dependency to the class. */
  function EdgeLine(e: Entry): string
  {
    "\n\t\"" + e.value + "\" -> \"" + e.key + "\";"
  }

  /** The string `dotFile` built by appending one edge line per entry. */
  function DotBody(es: seq<Entry>): string
    decreases |es|
  {
    if es == [] then "" else DotBody(es[..|es| - 1]) + EdgeLine(es[|es| - 1])
  }

  /** The bytes written to the DOT file. */
  function DotFile(es: seq<Entry>): (r: string)
    ensures |r| >= |DotHeader| + |DotFooter|
    ensures r[..|DotHeader|] == DotHeader
    ensures r[|r| - |DotFooter|..] == DotFooter
  {
    var r := DotHeader + DotBody(es) + DotFooter;
    assert r[..|DotHeader|] == DotHeader;
    assert r[|r| - |DotFooter|..] == DotFooter;
    r
  }

  /** The body of a concatenation is the concatenation of the bodies: entries are written in order. */
  lemma {:induction false} DotBodyAppend(a: seq<Entry>, b: seq<Entry>)
    ensures DotBody(a + b) == DotBody(a) + DotBody(b)
    decreases |b|
  {
    if b == [] {
      assert a + b == a;
    } else {
      var n := |b| - 1;
      assert (a + b)[..|a + b| - 1] == a + b[..n];
      assert (a + b)[|a + b| - 1] == b[n];
      DotBodyAppend(a, b[..n]);
    }
  }

  function CountChar(s: string, c: char): nat
    decreases |s|
  {
    if s == [] then 0 else (if s[0] == c then 1 else 0) + CountChar(s[1..], c)
  }

  lemma {:induction false} CountCharAppend(a: string, b: string, c: char)
    ensures CountChar(a + b, c) == CountChar(a, c) + CountChar(b, c)
    decreases |a|
  {
    if a != [] {
      assert (a + b)[1..] == a[1..] + b;
      CountCharAppend(a[1..], b, c);
    } else {
      assert a + b == b;
    }
  }

  lemma {:induction false} CountCharAbsent(s: string, c: char)
    requires c !in s
    ensures CountChar(s, c) == 0
    decreases |s|
  {
    if s != [] {
      CountCharAbsent(s[1..], c);
    }
  }

  predicate NoNewline(e: Entry)
  {
    '\n' !in e.key && '\n' !in e.value
  }

  /**
   * When no name holds a line break, the file has exactly one line per entry between
   * the header line and the closing brace.
   */
  lemma {:induction false} DotFileLineCount(es: seq<Entry>)
    requires forall i :: 0 <= i < |es| ==> NoNewline(es[i])
    ensures CountChar(DotFile(es), '\n') == |es| + 2
    decreases |es|
  {
    DotBodyLineCount(es);
    CountCharAppend(DotHeader + DotBody(es), DotFooter, '\n');
    CountCharAppend(DotHeader, DotBody(es), '\n');
    HeaderFooterLines();
  }

  lemma HeaderFooterLines()
    ensures CountChar(DotHeader, '\n') == 1
    ensures CountChar(DotFooter, '\n') == 1
  {
  }

  lemma {:induction false} DotBodyLineCount(es: seq<Entry>)
    requires forall i :: 0 <= i < |es| ==> NoNewline(es[i])
    ensures CountChar(DotBody(es), '\n') == |es|
    decreases |es|
  {
    if es != [] {
      var n := |es| - 1;
      var e := es[n];
      DotBodyLineCount(es[..n]);
      CountCharAppend(DotBody(es[..n]), EdgeLine(e), '\n');
      var rest := "\t\"" + e.value + "\" -> \"" + e.key + "\";";
      assert EdgeLine(e) == "\n" + rest;
      CountCharAppend("\n", rest, '\n');
      assert '\n' !in rest by {
        assert rest == "\t\"" + e.value + "\" -> \"" + e.key + "\";";
        assert NoNewline(e);
      }
      CountCharAbsent(rest, '\n');
    }
  }

  /** The whole tool after the directory scan: prune as often as the console line says, then render. */
  function Execute(es: seq<Entry>, line: string): (dot: string)
    ensures ParseInt(line).None? ==> dot == DotFile(es)
  {
    DotFile(StripTimes(es, RepeatCount(line)))
  }
}
