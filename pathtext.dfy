/** The pure string computations of the submission and subject handlers:
    Node's `path.extname` (POSIX flavour), `toLowerCase`, the extension
    whitelist, the stored-file and public-path templates, and `split(",")`. */
module PathText {

  // ---------------------------------------------------------------------
  // path.extname
  // ---------------------------------------------------------------------

  /** Index of the last occurrence of `c` in `s`, or -1 when there is none. */
  function IndexOfLast(s: string, c: char): (k: int)
    ensures -1 <= k < |s|
    ensures k >= 0 ==> s[k] == c
    ensures forall j :: k < j < |s| ==> s[j] != c
  {
    if s == [] then -1
    else if s[|s| - 1] == c then |s| - 1
    else IndexOfLast(s[..|s| - 1], c)
  }

  /** The path without its trailing run of `/` characters. */
  function StripTrailingSlashes(p: string): (r: string)
    ensures r <= p
    ensures r == [] || r[|r| - 1] != '/'
    ensures forall j :: |r| <= j < |p| ==> p[j] == '/'
  {
    if p != [] && p[|p| - 1] == '/' then StripTrailingSlashes(p[..|p| - 1]) else p
  }

  /** The last component of a path, after trailing slashes are ignored. */
  function Basename(p: string): (b: string)
    ensures '/' !in b
    ensures |b| <= |StripTrailingSlashes(p)|
    ensures b == StripTrailingSlashes(p)[|StripTrailingSlashes(p)| - |b|..]
  {
    var t := StripTrailingSlashes(p);
    t[IndexOfLast(t, '/') + 1..]
  }

  /** The basename is the whole last component: either it is the entire
      stripped path or a `/` stands right before it. */
  lemma {:induction false} BasenameIsLastComponent(p: string)
    ensures var t := StripTrailingSlashes(p);
      |Basename(p)| == |t| || t[|t| - |Basename(p)| - 1] == '/'
  {
  }

  /** Node's `path.extname`: the part of the last path component from its
      last `.` on; empty when the component has no `.`, when its only `.`
      is the leading one, and for the component `..`. */
  function Extname(p: string): (e: string)
    ensures e == [] || e[0] == '.'
    ensures forall i :: 0 < i < |e| ==> e[i] != '.'
    ensures '/' !in e
  {
    var b := Basename(p);
    var d := IndexOfLast(b, '.');
    if d <= 0 || b == ".." then "" else b[d..]
  }

  /** The extension is a suffix of the last path component. */
  lemma {:induction false} ExtnameIsSuffix(p: string)
    ensures |Extname(p)| <= |Basename(p)|
    ensures Extname(p) == Basename(p)[|Basename(p)| - |Extname(p)|..]
  {
    var b := Basename(p);
    if Extname(p) == "" {
      assert b[|b|..] == "";
    }
  }

  /** A name that contains no `/` is its own last component. */
  lemma {:induction false} BasenameOfPlainName(name: string)
    requires '/' !in name
    ensures Basename(name) == name
  {
    assert name == [] || name[|name| - 1] != '/';
    assert StripTrailingSlashes(name) == name;
    assert IndexOfLast(name, '/') == -1;
  }

  /** `IndexOfLast` finds a position holding `c` with no `c` after it. */
  lemma {:induction false} IndexOfLastAt(s: string, c: char, k: nat)
    requires k < |s| && s[k] == c
    requires forall j :: k < j < |s| ==> s[j] != c
    ensures IndexOfLast(s, c) == k
  {
  }

  /** A name without `/` whose last `.` is preceded by a non-empty stem has
      that `.` and everything after it as its extension. */
  lemma {:induction false} ExtnameOfPlainName(stem: string, ext: string)
    requires '/' !in stem && '/' !in ext && '.' !in ext
    requires stem != "" && (stem != "." || ext != "")
    ensures Extname(stem + "." + ext) == "." + ext
  {
    var name := stem + "." + ext;
    assert '/' !in name by {
      assert forall j :: 0 <= j < |name| ==> name[j] in stem || name[j] == '.' || name[j] in ext;
    }
    BasenameOfPlainName(name);
    assert name[|stem|] == '.';
    assert name[|stem| + 1..] == ext;
    assert forall j :: |stem| < j < |name| ==> name[j] != '.' by {
      forall j | |stem| < j < |name| ensures name[j] != '.' {
        assert name[j] == ext[j - |stem| - 1];
      }
    }
    IndexOfLastAt(name, '.', |stem|);
    assert name[|stem|..] == "." + ext;
    assert name[..|stem|] == stem;
  }

  /** A name without `/` and without `.` has no extension. */
  lemma {:induction false} ExtnameWithoutDot(name: string)
    requires '/' !in name && '.' !in name
    ensures Extname(name) == ""
  {
    BasenameOfPlainName(name);
    assert IndexOfLast(name, '.') == -1;
  }

  /** A name whose only `.` is its first character (a "dot file") has no extension. */
  lemma {:induction false} ExtnameOfDotFile(name: string)
    requires '/' !in name && |name| > 0 && name[0] == '.'
    requires forall i :: 0 < i < |name| ==> name[i] != '.'
    ensures Extname(name) == ""
  {
    BasenameOfPlainName(name);
    IndexOfLastAt(name, '.', 0);
  }

  // ---------------------------------------------------------------------
  // toLowerCase and the extension whitelist
  // ---------------------------------------------------------------------

  predicate IsUpper(c: char) { 'A' <= c <= 'Z' }

  function LowerChar(c: char): (l: char)
    ensures !IsUpper(l)
    ensures IsUpper(c) ==> l as int == c as int + 32
    ensures !IsUpper(c) ==> l == c
  {
    if IsUpper(c) then (c as int + 32) as char else c
  }

  /** `String.prototype.toLowerCase` restricted to ASCII letters. */
  function ToLower(s: string): (r: string)
    ensures |r| == |s|
    ensures forall i :: 0 <= i < |r| ==> !IsUpper(r[i])
    ensures forall i :: 0 <= i < |s| ==> r[i] == LowerChar(s[i])
  {
    seq(|s|, i requires 0 <= i < |s| => LowerChar(s[i]))
  }

  lemma {:induction false} ToLowerIdempotent(s: string)
    ensures ToLower(ToLower(s)) == ToLower(s)
  {
  }

  const AllowedExtensions: seq<string> := [".pdf", ".mp4"]

  /** `allowedExtensions.includes(ext)`. */
  predicate IsAllowedExtension(ext: string)
    ensures IsAllowedExtension(ext) ==> |ext| == 4 && ext[0] == '.' && forall i :: 0 <= i < 4 ==> !IsUpper(ext[i])
  {
    ext in AllowedExtensions
  }

  /** The lower-cased extension of an uploaded file's original name: as long
      as `path.extname`, empty or starting with `.`, and free of upper-case
      letters and of `/`. */
  function FileExtension(originalName: string): (e: string)
    ensures |e| == |Extname(originalName)|
    ensures e == [] || e[0] == '.'
    ensures forall i :: 0 <= i < |e| ==> !IsUpper(e[i])
    ensures '/' !in e
  {
    var x := Extname(originalName);
    var e := ToLower(x);
    assert forall i :: 0 <= i < |e| ==> e[i] != '/' by {
      forall i | 0 <= i < |e| ensures e[i] != '/' {
        assert x[i] != '/';
      }
    }
    e
  }

  /** The whitelist check is case-insensitive: a lower-cased extension is
      accepted exactly when the original is `.pdf` or `.mp4` in any mix of
      upper and lower case. */
  lemma {:induction false} AllowedIsCaseInsensitive(ext: string)
    ensures IsAllowedExtension(ToLower(ext)) <==>
      |ext| == 4 && ext[0] == '.' &&
      ((ext[1] in "pP" && ext[2] in "dD" && ext[3] in "fF") ||
       (ext[1] in "mM" && ext[2] in "pP" && ext[3] == '4'))
  {
    var l := ToLower(ext);
    if |ext| == 4 {
      assert l == [LowerChar(ext[0]), LowerChar(ext[1]), LowerChar(ext[2]), LowerChar(ext[3])];
    }
  }

  // ---------------------------------------------------------------------
  // Stored names and public paths
  // ---------------------------------------------------------------------

  const UnknownSubject := "unknown"

  /** The directory a submission is stored in: `subject || "unknown"`. */
  function SubjectDir(subject: string): (d: string)
    ensures d != ""
    ensures subject != "" ==> d == subject
  {
    if subject == "" then UnknownSubject else subject
  }

  /** The template `${usn}.${assignment_number}${fileExtension}`. */
  function StoredName(usn: string, assignmentNumber: string, ext: string): string
  {
    usn + "." + assignmentNumber + ext
  }

  /** A stored name splits into the usn, a `.`, the assignment number and the
      extension, in that order. */
  lemma {:induction false} StoredNameParts(usn: string, assignmentNumber: string, ext: string)
    ensures var name := StoredName(usn, assignmentNumber, ext);
      |name| == |usn| + 1 + |assignmentNumber| + |ext| &&
      name[..|usn|] == usn && name[|usn|] == '.' &&
      name[|usn| + 1..|name| - |ext|] == assignmentNumber &&
      name[|name| - |ext|..] == ext
  {
  }

  /** The template `/uploads/${subject}/${newFileName}`. */
  function PublicPath(subject: string, name: string): string
  {
    "/uploads/" + subject + "/" + name
  }

  /** A public path is `/uploads/`, the subject verbatim, a `/`, then the name. */
  lemma {:induction false} PublicPathParts(subject: string, name: string)
    ensures var path := PublicPath(subject, name);
      |path| == |"/uploads/"| + |subject| + 1 + |name| &&
      path[..|"/uploads/"|] == "/uploads/" &&
      path[|"/uploads/"|..|path| - |name| - 1] == subject &&
      path[|path| - |name| - 1] == '/' &&
      path[|path| - |name|..] == name
  {
  }

  /** Two submissions of the same user and assignment number get the same
      stored name exactly when their extensions agree, so a resubmission
      overwrites the earlier file only when it has the same extension. */
  lemma {:induction false} StoredNameCollides(usn: string, assignmentNumber: string, ext1: string, ext2: string)
    ensures StoredName(usn, assignmentNumber, ext1) == StoredName(usn, assignmentNumber, ext2) <==> ext1 == ext2
  {
    var prefix := usn + "." + assignmentNumber;
    if prefix + ext1 == prefix + ext2 {
      assert ext1 == (prefix + ext1)[|prefix|..];
      assert ext2 == (prefix + ext2)[|prefix|..];
    }
  }

  /** A stored name keeps the accepted extension: computing the extension of
      the stored name gives back the one that was whitelisted. */
  lemma {:induction false} StoredNameKeepsExtension(usn: string, assignmentNumber: string, ext: string)
    requires '/' !in usn && '/' !in assignmentNumber
    requires IsAllowedExtension(ext)
    ensures Extname(StoredName(usn, assignmentNumber, ext)) == ext
    ensures FileExtension(StoredName(usn, assignmentNumber, ext)) == ext
  {
    ExtnameOfStoredName(usn, assignmentNumber, ext);
    AllowedIsLowerCase(ext);
  }

  /** The whitelisted extensions are already in lower case. */
  lemma {:induction false} AllowedIsLowerCase(ext: string)
    requires IsAllowedExtension(ext)
    ensures ToLower(ext) == ext
  {
    assert forall i :: 0 <= i < |ext| ==> !IsUpper(ext[i]);
  }

  lemma {:induction false} ExtnameOfStoredName(usn: string, assignmentNumber: string, ext: string)
    requires '/' !in usn && '/' !in assignmentNumber
    requires IsAllowedExtension(ext)
    ensures Extname(StoredName(usn, assignmentNumber, ext)) == ext
  {
    var stem := usn + "." + assignmentNumber;
    assert '/' !in usn + ".";
    assert '/' !in stem;
    var tail := if ext == ".pdf" then "pdf" else "mp4";
    assert ext == "." + tail;
    assert StoredName(usn, assignmentNumber, ext) == stem + "." + tail;
    ExtnameOfPlainName(stem, tail);
  }

  // ---------------------------------------------------------------------
  // split(",") and join(",")
  // ---------------------------------------------------------------------

  /** `String.prototype.split(",")`: every piece between commas, untrimmed,
      empty pieces kept; the empty string gives [""]. */
  function SplitComma(s: string): (parts: seq<string>)
    ensures |parts| >= 1
    ensures forall i :: 0 <= i < |parts| ==> ',' !in parts[i]
  {
    if s == [] then [""]
    else
      var rest := SplitComma(s[1..]);
      if s[0] == ',' then [""] + rest
      else [[s[0]] + rest[0]] + rest[1..]
  }

  /** `Array.prototype.join(",")`. */
  function JoinComma(parts: seq<string>): string
  {
    if parts == [] then ""
    else if |parts| == 1 then parts[0]
    else parts[0] + "," + JoinComma(parts[1..])
  }

  /** Splitting yields one more piece than there are commas. */
  lemma {:induction false} SplitCommaCount(s: string)
    ensures |SplitComma(s)| == multiset(s)[','] + 1
  {
    if s != [] {
      SplitCommaCount(s[1..]);
      assert s == [s[0]] + s[1..];
      assert multiset(s) == multiset{s[0]} + multiset(s[1..]);
    }
  }

  /** Joining the pieces with "," gives back the split string. */
  lemma {:induction false} JoinSplitComma(s: string)
    ensures JoinComma(SplitComma(s)) == s
  {
    if s != [] {
      var rest := SplitComma(s[1..]);
      JoinSplitComma(s[1..]);
      if s[0] == ',' {
        assert SplitComma(s) == [""] + rest;
        assert JoinComma(SplitComma(s)) == "" + "," + JoinComma(rest);
      } else {
        JoinConsOntoHead(s[0], rest);
      }
      assert s == [s[0]] + s[1..];
    }
  }

  /** Prefixing a character onto the first piece prefixes it onto the join. */
  lemma {:induction false} JoinConsOntoHead(c: char, parts: seq<string>)
    requires |parts| >= 1
    ensures JoinComma([[c] + parts[0]] + parts[1..]) == [c] + JoinComma(parts)
  {
    var q := [[c] + parts[0]] + parts[1..];
    if |parts| == 1 {
      assert q == [[c] + parts[0]];
    } else {
      assert q[1..] == parts[1..];
      assert JoinComma(q) == ([c] + parts[0]) + "," + JoinComma(parts[1..]);
      assert JoinComma(parts) == parts[0] + "," + JoinComma(parts[1..]);
    }
  }

  /** Splitting a comma-free word followed by more text extends the first piece. */
  lemma {:induction false} SplitPrefixWord(w: string, t: string)
    requires ',' !in w
    ensures SplitComma(w + t) == [w + SplitComma(t)[0]] + SplitComma(t)[1..]
  {
    if w != [] {
      SplitPrefixWord(w[1..], t);
      assert (w + t)[1..] == w[1..] + t;
      assert (w + t)[0] == w[0];
      assert [w[0]] + (w[1..] + SplitComma(t)[0]) == w + SplitComma(t)[0];
    } else {
      assert w + t == t;
      assert w + SplitComma(t)[0] == SplitComma(t)[0];
      assert [SplitComma(t)[0]] + SplitComma(t)[1..] == SplitComma(t);
    }
  }

  /** Splitting the join of comma-free pieces gives back the pieces. */
  lemma {:induction false} SplitJoinComma(parts: seq<string>)
    requires |parts| >= 1
    requires forall i :: 0 <= i < |parts| ==> ',' !in parts[i]
    ensures SplitComma(JoinComma(parts)) == parts
  {
    if |parts| == 1 {
      SplitPrefixWord(parts[0], "");
      assert parts[0] + "" == parts[0];
    } else {
      var rest := parts[1..];
      SplitJoinComma(rest);
      var t := "," + JoinComma(rest);
      assert JoinComma(parts) == parts[0] + t;
      SplitPrefixWord(parts[0], t);
      assert t[1..] == JoinComma(rest);
      assert SplitComma(t) == [""] + rest;
      assert parts[0] + "" == parts[0];
      assert [parts[0]] + rest == parts;
    }
  }
}
