/**
 * Values and string operations shared by the whole model: the nullable
 * reference (Option), an exception escaping a call (Result), and the .NET
 * string operations the updater relies on (Split, TrimEnd, StartsWith,
 * EndsWith, Path.GetFileName, OrdinalIgnoreCase matching and ordering).
 */
module Common {

  /** A C# nullable reference: None stands for null. */
  datatype Option<T> = None | Some(value: T)

  /** The value of a call, or the message of the exception it threw. */
  datatype Result<T> = Ok(value: T) | Err(message: string)

  type Bytes = seq<bv8>

  predicate StartsWith(s: string, prefix: string) {
    |prefix| <= |s| && s[..|prefix|] == prefix
  }

  predicate EndsWith(s: string, suffix: string) {
    |suffix| <= |s| && s[|s| - |suffix|..] == suffix
  }

  /** Number of occurrences of c in s. */
  function Count(s: string, c: char): nat {
    if s == [] then 0 else (if s[0] == c then 1 else 0) + Count(s[1..], c)
  }

  lemma {:induction false} CountConcat(a: string, b: string, c: char)
    ensures Count(a + b, c) == Count(a, c) + Count(b, c)
  {
    if a == [] {
      assert a + b == b;
    } else {
      assert (a + b)[1..] == a[1..] + b;
      CountConcat(a[1..], b, c);
    }
  }

  // ---------------------------------------------------------------------
  // String.Split(char) and its inverse

  /** String.Split(sep): the pieces between separators, empty pieces kept. */
  function Split(s: string, sep: char): (parts: seq<string>)
    ensures |parts| == Count(s, sep) + 1
    ensures forall i :: 0 <= i < |parts| ==> sep !in parts[i]
  {
    if s == [] then [""]
    else
      var rest := Split(s[1..], sep);
      if s[0] == sep then [""] + rest
      else [[s[0]] + rest[0]] + rest[1..]
  }

  /** String.Join(sep, parts). */
  function Join(parts: seq<string>, sep: char): string
    requires |parts| >= 1
  {
    if |parts| == 1 then parts[0] else parts[0] + [sep] + Join(parts[1..], sep)
  }

  lemma {:induction false} SplitWithoutSeparator(s: string, sep: char)
    requires sep !in s
    ensures Split(s, sep) == [s]
  {
    if s != [] {
      assert sep !in s[1..];
      SplitWithoutSeparator(s[1..], sep);
      assert s == [s[0]] + s[1..];
    }
  }

  /** Splitting at a separator splits the two sides independently. */
  lemma {:induction false} SplitAtSeparator(a: string, b: string, sep: char)
    ensures Split(a + [sep] + b, sep) == Split(a, sep) + Split(b, sep)
  {
    if a == [] {
      assert a + [sep] + b == [sep] + b;
      assert ([sep] + b)[1..] == b;
    } else {
      assert (a + [sep] + b)[1..] == a[1..] + [sep] + b;
      assert (a + [sep] + b)[0] == a[0];
      SplitAtSeparator(a[1..], b, sep);
    }
  }

  /** Join undoes Split. */
  lemma {:induction false} JoinSplit(s: string, sep: char)
    ensures Join(Split(s, sep), sep) == s
  {
    if s != [] {
      var rest := Split(s[1..], sep);
      JoinSplit(s[1..], sep);
      if s[0] == sep {
        assert ([""] + rest)[1..] == rest;
        assert s == [sep] + s[1..];
      } else {
        var parts := [[s[0]] + rest[0]] + rest[1..];
        if |rest| == 1 {
          assert s == [s[0]] + s[1..];
        } else {
          assert parts[1..] == rest[1..];
          assert Join(rest, sep) == rest[0] + [sep] + Join(rest[1..], sep);
          assert s == [s[0]] + s[1..];
        }
      }
    }
  }

  /** Split undoes Join when no piece contains the separator. */
  lemma {:induction false} SplitJoin(parts: seq<string>, sep: char)
    requires |parts| >= 1
    requires forall i :: 0 <= i < |parts| ==> sep !in parts[i]
    ensures Split(Join(parts, sep), sep) == parts
  {
    SplitWithoutSeparator(parts[0], sep);
    if |parts| > 1 {
      SplitJoin(parts[1..], sep);
      SplitAtSeparator(parts[0], Join(parts[1..], sep), sep);
      assert parts == [parts[0]] + parts[1..];
    }
  }

  /** String.Split(sep, StringSplitOptions.RemoveEmptyEntries). */
  function SplitNonEmpty(s: string, sep: char): (parts: seq<string>)
    ensures forall i :: 0 <= i < |parts| ==> parts[i] != "" && sep !in parts[i]
  {
    RemoveEmpty(Split(s, sep))
  }

  function RemoveEmpty(parts: seq<string>): (kept: seq<string>)
    ensures |kept| <= |parts|
    ensures forall i :: 0 <= i < |kept| ==> kept[i] != "" && kept[i] in parts
    ensures forall i :: 0 <= i < |parts| && parts[i] != "" ==> parts[i] in kept
  {
    if parts == [] then []
    else (if parts[0] == "" then [] else [parts[0]]) + RemoveEmpty(parts[1..])
  }

  // ---------------------------------------------------------------------
  // String.TrimEnd(char)

  /** String.TrimEnd(c): s without its trailing run of c. */
  function TrimEnd(s: string, c: char): (r: string)
    ensures |r| <= |s| && r == s[..|r|]
    ensures r == [] || r[|r| - 1] != c
    ensures forall i :: |r| <= i < |s| ==> s[i] == c
  {
    if s != [] && s[|s| - 1] == c then TrimEnd(s[..|s| - 1], c) else s
  }

  /** Trimming never adds pieces: Split(TrimEnd(s)) has at most as many as Split(s). */
  lemma TrimEndKeepsFewerPieces(s: string, c: char)
    ensures |Split(TrimEnd(s, c), c)| <= |Split(s, c)|
  {
    var r := TrimEnd(s, c);
    assert s == r + s[|r|..];
    CountConcat(r, s[|r|..], c);
  }

  // ---------------------------------------------------------------------
  // Path.GetFileName

  predicate IsDirectorySeparator(c: char) {
    c == '/' || c == '\\'
  }

  /** Path.GetFileName: the part of path after its last directory separator. */
  function FileName(path: string): (name: string)
    ensures EndsWith(path, name)
    ensures forall i :: 0 <= i < |name| ==> !IsDirectorySeparator(name[i])
    ensures |name| == |path| || IsDirectorySeparator(path[|path| - |name| - 1])
  {
    if path == [] then []
    else if IsDirectorySeparator(path[|path| - 1]) then []
    else
      var init := path[..|path| - 1];
      var name := FileName(init) + [path[|path| - 1]];
      assert path == init + [path[|path| - 1]];
      name
  }

  // ---------------------------------------------------------------------
  // StringComparison.OrdinalIgnoreCase, restricted to ASCII letters

  function UpperAscii(c: char): char {
    if 'a' <= c <= 'z' then (c as int - 32) as char else c
  }

  predicate EqualsIgnoreCase(a: string, b: string) {
    |a| == |b| && forall i :: 0 <= i < |a| ==> UpperAscii(a[i]) == UpperAscii(b[i])
  }

  /**
   * Against a word of lower-case ASCII letters, the ignore-case comparison
   * accepts exactly the strings of the same length that spell it with each
   * letter in either case.
   */
  lemma IgnoreCaseAgainstLowercase(s: string, word: string)
    requires forall i :: 0 <= i < |word| ==> 'a' <= word[i] <= 'z'
    ensures EqualsIgnoreCase(s, word) <==>
      |s| == |word| && forall i :: 0 <= i < |s| ==> s[i] == word[i] || s[i] == UpperAscii(word[i])
  {
    if |s| == |word| {
      forall i | 0 <= i < |s|
        ensures UpperAscii(s[i]) == UpperAscii(word[i]) <==> s[i] == word[i] || s[i] == UpperAscii(word[i])
      {
        UpperOfLowercase(s[i], word[i]);
      }
    }
  }

  lemma UpperOfLowercase(c: char, w: char)
    requires 'a' <= w <= 'z'
    ensures UpperAscii(c) == UpperAscii(w) <==> c == w || c == UpperAscii(w)
  {
    assert UpperAscii(w) as int == w as int - 32;
  }

  /** String.Contains(term, OrdinalIgnoreCase), searching from the left. */
  predicate ContainsIgnoreCase(s: string, term: string)
    decreases |s|
  {
    if |term| > |s| then false
    else EqualsIgnoreCase(s[..|term|], term) || ContainsIgnoreCase(s[1..], term)
  }

  /** The window of s starting at i matches term, ignoring case. */
  predicate MatchesAt(s: string, term: string, i: int) {
    0 <= i <= |s| - |term| && EqualsIgnoreCase(s[i..i + |term|], term)
  }

  /** ContainsIgnoreCase holds exactly when some window of s matches term. */
  lemma {:induction false} ContainsIgnoreCaseMeans(s: string, term: string)
    ensures ContainsIgnoreCase(s, term) <==> exists i :: MatchesAt(s, term, i)
    decreases |s|
  {
    if |term| <= |s| {
      if EqualsIgnoreCase(s[..|term|], term) {
        assert s[0..0 + |term|] == s[..|term|];
        assert MatchesAt(s, term, 0);
        return;
      }
      ContainsIgnoreCaseMeans(s[1..], term);
      if ContainsIgnoreCase(s, term) {
        var j :| MatchesAt(s[1..], term, j);
        TailWindow(s, j, |term|);
        assert MatchesAt(s, term, j + 1);
      } else {
        forall i | 0 <= i <= |s| - |term|
          ensures !MatchesAt(s, term, i)
        {
          if i == 0 {
            assert s[0..0 + |term|] == s[..|term|];
          } else {
            TailWindow(s, i - 1, |term|);
            assert !MatchesAt(s[1..], term, i - 1);
          }
        }
      }
    }
  }

  /** A window of the tail of s is the window of s one place to the right. */
  lemma TailWindow(s: string, j: int, n: int)
    requires 0 <= j && 0 <= n && j + n <= |s| - 1
    ensures s[1..][j..j + n] == s[j + 1..j + 1 + n]
  {
    var a, b := s[1..][j..j + n], s[j + 1..j + 1 + n];
    assert forall k :: 0 <= k < n ==> a[k] == b[k];
  }

  // ---------------------------------------------------------------------
  // Ordinal string order (stands in for the culture-sensitive default comparer)

  predicate LessEq(a: string, b: string) {
    if a == [] then true
    else if b == [] then false
    else if a[0] < b[0] then true
    else if a[0] > b[0] then false
    else LessEq(a[1..], b[1..])
  }

  lemma {:induction false} LessEqReflexive(a: string)
    ensures LessEq(a, a)
  {
    if a != [] {
      LessEqReflexive(a[1..]);
    }
  }

  lemma {:induction false} LessEqTotal(a: string, b: string)
    ensures LessEq(a, b) || LessEq(b, a)
  {
    if a != [] && b != [] && a[0] == b[0] {
      LessEqTotal(a[1..], b[1..]);
    }
  }

  lemma {:induction false} LessEqTransitive(a: string, b: string, c: string)
    requires LessEq(a, b) && LessEq(b, c)
    ensures LessEq(a, c)
  {
    if a != [] && b != [] && c != [] && a[0] == b[0] == c[0] {
      LessEqTransitive(a[1..], b[1..], c[1..]);
    }
  }

  lemma {:induction false} LessEqAntisymmetric(a: string, b: string)
    requires LessEq(a, b) && LessEq(b, a)
    ensures a == b
  {
    if a != [] && b != [] {
      LessEqAntisymmetric(a[1..], b[1..]);
      assert a == [a[0]] + a[1..] && b == [b[0]] + b[1..];
    }
  }
}
