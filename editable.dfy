/** Which files the browser offers to open in its text editor. */
module Editable {
  import opened Strings

  /** Suffixes (from the last dot) that mark a text file, in the source's
      order, in four rows. */
  const Extensions: seq<string> := ExtensionsA + ExtensionsB + ExtensionsC + ExtensionsD

  const ExtensionsA: seq<string> := [".txt", ".log", ".json", ".xml", ".yaml", ".yml", ".ini", ".cfg"]
  const ExtensionsB: seq<string> := [".conf", ".cnf", ".md", ".sh", ".bash", ".zsh", ".c", ".cpp"]
  const ExtensionsC: seq<string> := [".h", ".hpp", ".cs", ".java", ".js", ".ts", ".css", ".scss"]
  const ExtensionsD: seq<string> := [".html", ".htm", ".php", ".py", ".rb", ".go", ".env"]

  /** Whole (lower-cased) names of text files that carry no extension. */
  const PlainNames: seq<string> := [
    "dockerfile", "makefile", "license", "readme", "changelog", "nginx.conf", "apache.conf"
  ]

  /** The classifier: with a dot past the first character, the suffix from the
      last dot decides; otherwise the whole lower-cased name does. */
  function IsEditable(filename: string): bool {
    var lower := Lower(filename);
    var dot := LastIndexOf(lower, '.');
    if dot != -1 && dot != 0 then lower[dot..] in Extensions
    else lower in PlainNames
  }

  predicate EndsWith(s: string, suffix: string) {
    |suffix| <= |s| && s[|s| - |suffix|..] == suffix
  }

  /** A name has an extension when a dot occurs somewhere after its first character. */
  predicate HasExtension(s: string) {
    exists i :: 1 <= i < |s| && s[i] == '.'
  }

  /** A dot followed by dot-free text. */
  predicate ExtensionShaped(e: string) {
    |e| >= 2 && e[0] == '.' && '.' !in e[1..]
  }

  /** Every listed extension is a dot followed by dot-free text. */
  lemma ExtensionsShape()
    ensures forall e :: e in Extensions ==> ExtensionShaped(e)
  {
    RowShape(ExtensionsA);
    RowShape(ExtensionsB);
    RowShape(ExtensionsC);
    RowShape(ExtensionsD);
  }

  lemma RowShape(row: seq<string>)
    requires row == ExtensionsA || row == ExtensionsB || row == ExtensionsC || row == ExtensionsD
    ensures forall e :: e in row ==> ExtensionShaped(e)
  {
  }

  /** Upper and lower case are not told apart. */
  lemma CaseInsensitive(filename: string)
    ensures IsEditable(filename) == IsEditable(Lower(filename))
  {
    LowerIdempotent(filename);
  }

  /** Finding the last dot: it is past the first character exactly when the
      name has an extension. */
  lemma LastDotPastStart(s: string)
    ensures LastIndexOf(s, '.') > 0 <==> HasExtension(s)
  {
    var d := LastIndexOf(s, '.');
    if HasExtension(s) {
      var i :| 1 <= i < |s| && s[i] == '.';
      assert i <= d;
    }
  }

  /** An independent statement of the rule: a name is editable exactly when
      it ends in a listed extension that is shorter than the whole name, or
      it has no extension and is one of the plain names. */
  lemma Characterisation(filename: string)
    ensures var lower := Lower(filename);
      IsEditable(filename) <==>
        (exists e :: e in Extensions && |e| < |lower| && EndsWith(lower, e))
        || (!HasExtension(lower) && lower in PlainNames)
  {
    var lower := Lower(filename);
    var dot := LastIndexOf(lower, '.');
    ExtensionsShape();
    LastDotPastStart(lower);
    if dot > 0 {
      var ext := lower[dot..];
      if ext in Extensions {
        assert |ext| < |lower| && EndsWith(lower, ext);
      }
      if e :| e in Extensions && |e| < |lower| && EndsWith(lower, e) {
        ExtensionFound(lower, e);
      }
    } else {
      if e :| e in Extensions && |e| < |lower| && EndsWith(lower, e) {
        ExtensionFound(lower, e);
        assert false;
      }
    }
  }

  /** A listed extension that ends a longer name starts at its last dot. */
  lemma ExtensionFound(lower: string, e: string)
    requires ExtensionShaped(e)
    requires |e| < |lower| && EndsWith(lower, e)
    ensures LastIndexOf(lower, '.') == |lower| - |e| > 0
    ensures lower[LastIndexOf(lower, '.')..] == e
  {
    var k := |lower| - |e|;
    assert lower[k] == e[0];
    forall j | k < j < |lower| ensures lower[j] != '.' {
      assert lower[j] == e[j - k] == e[1..][j - k - 1];
    }
  }

  /** A name with a dot only at its start is looked up whole, so `.bashrc`
      and `.env` are not editable although `.env` is a listed suffix. */
  lemma HiddenFilesLookedUpWhole(filename: string)
    requires |filename| > 0 && filename[0] == '.' && '.' !in filename[1..]
    ensures IsEditable(filename) == (Lower(filename) in PlainNames)
    ensures !IsEditable(filename)
  {
    var lower := Lower(filename);
    assert lower[0] == '.';
    forall i | 1 <= i < |lower| ensures lower[i] != '.' {
      assert filename[i] == filename[1..][i - 1];
    }
    LastDotPastStart(lower);
    assert forall n :: n in PlainNames ==> |n| == 0 || n[0] != '.';
  }

  /** A name that lower-cases to a dot-free plain name is editable. */
  lemma PlainNameEditable(filename: string)
    requires Lower(filename) in PlainNames && '.' !in Lower(filename)
    ensures IsEditable(filename)
  {
    LastDotPastStart(Lower(filename));
  }

  /** `Dockerfile` is editable, `.bashrc` and `.env` are not, `prod.env` is. */
  lemma Examples()
    ensures IsEditable("Dockerfile")
    ensures !IsEditable(".bashrc")
    ensures !IsEditable(".env") && IsEditable("prod.env")
  {
    DockerfileEditable("Dockerfile");
    HiddenExample(".bashrc");
    HiddenExample(".env");
    ProdEnvEditable("prod.env");
  }

  lemma HiddenExample(n: string)
    requires n == ".bashrc" || n == ".env"
    ensures !IsEditable(n)
  {
    HiddenFilesLookedUpWhole(n);
  }

  lemma ProdEnvEditable(n: string)
    requires n == "prod.env"
    ensures IsEditable(n)
  {
    assert Lower(n) == n;
    SuffixEditable(n, ".env");
  }

  lemma DockerfileEditable(d: string)
    requires d == "Dockerfile"
    ensures IsEditable(d)
  {
    assert Lower(d) == "dockerfile";
    PlainNameEditable(d);
  }

  /** A lower-case name ending in a listed extension is editable. */
  lemma SuffixEditable(name: string, e: string)
    requires Lower(name) == name && e in Extensions
    requires |e| < |name| && EndsWith(name, e)
    ensures IsEditable(name)
  {
    ExtensionsShape();
    ExtensionFound(name, e);
  }

  /** The plain names `nginx.conf` and `apache.conf` are never reached by the
      whole-name lookup: they have an extension, so their `.conf` suffix decides. */
  lemma DottedPlainNamesUnreached(filename: string)
    requires Lower(filename) == "nginx.conf" || Lower(filename) == "apache.conf"
    ensures LastIndexOf(Lower(filename), '.') > 0
    ensures IsEditable(filename)
  {
    var lower := Lower(filename);
    assert EndsWith(lower, ".conf");
    LowerIdempotent(filename);
    SuffixEditable(lower, ".conf");
    ExtensionsShape();
    ExtensionFound(lower, ".conf");
    CaseInsensitive(filename);
  }
}
