/** The few pieces of JavaScript string behaviour the middleware relies on:
    `String.prototype.split` with a one-character separator, `Array.prototype.join`
    (as the inverse of split), `filter(Boolean)` on an array of strings, and the
    character class `\s` of JavaScript regular expressions. */
module JsString {

  /** `s.split(sep)`: the pieces of `s` between occurrences of `sep`, in order.
      Like JavaScript, the empty string splits into one empty piece. */
  function Split(s: string, sep: char): (parts: seq<string>)
    ensures |parts| >= 1
    ensures forall i :: 0 <= i < |parts| ==> sep !in parts[i]
    decreases |s|
  {
    if s == [] then [""]
    else
      var rest := Split(s[1..], sep);
      if s[0] == sep then [""] + rest
      else [[s[0]] + rest[0]] + rest[1..]
  }

  /** `parts.join(sep)`. */
  function Join(parts: seq<string>, sep: char): string
    decreases |parts|
  {
    if |parts| == 0 then ""
    else if |parts| == 1 then parts[0]
    else parts[0] + [sep] + Join(parts[1..], sep)
  }

  /** `parts.filter(Boolean)`: the non-empty strings of `parts`, in order. */
  function FilterNonEmpty(parts: seq<string>): (r: seq<string>)
    ensures |r| <= |parts|
    ensures forall i :: 0 <= i < |r| ==> r[i] != "" && r[i] in parts
    decreases |parts|
  {
    if parts == [] then []
    else if parts[0] == "" then FilterNonEmpty(parts[1..])
    else [parts[0]] + FilterNonEmpty(parts[1..])
  }

  /** Membership in the `\s` class of JavaScript regular expressions: the white-space
      and line-terminator code points of ECMAScript (sections 12.2 and 12.3 of ECMA-262). */
  predicate IsSpace(c: char) {
    var n := c as int;
    n == 0x09 || n == 0x0A || n == 0x0B || n == 0x0C || n == 0x0D || n == 0x20
    || n == 0xA0 || n == 0x1680 || (0x2000 <= n <= 0x200A)
    || n == 0x2028 || n == 0x2029 || n == 0x202F || n == 0x205F || n == 0x3000 || n == 0xFEFF
  }

  /** The characters of a call's `()` are not white space. */
  lemma ParenIsNotSpace()
    ensures !IsSpace('(') && !IsSpace(')')
  {
  }

  /** `s` with its leading `\s` characters removed: a suffix of `s`. */
  function DropSpaces(s: string): (r: string)
    ensures |r| <= |s|
    decreases |s|
  {
    if s != [] && IsSpace(s[0]) then DropSpaces(s[1..]) else s
  }

  /** What DropSpaces keeps is the end of `s`. */
  lemma {:induction false} DropSpacesIsSuffix(s: string)
    ensures DropSpaces(s) == s[|s| - |DropSpaces(s)|..]
    decreases |s|
  {
    if s != [] && IsSpace(s[0]) {
      DropSpacesIsSuffix(s[1..]);
      assert s[1..][|s[1..]| - |DropSpaces(s[1..])|..] == s[|s| - |DropSpaces(s)|..];
    }
  }

  /** Every character of `s` is white space. */
  predicate AllSpace(s: string)
    decreases |s|
  {
    s == [] || (IsSpace(s[0]) && AllSpace(s[1..]))
  }

  /** What DropSpaces removes is white space, and what it keeps does not start with it. */
  lemma {:induction false} DropSpacesRemovesRun(s: string)
    ensures DropSpaces(s) != [] ==> !IsSpace(DropSpaces(s)[0])
    ensures AllSpace(s[..|s| - |DropSpaces(s)|])
    decreases |s|
  {
    if s != [] && IsSpace(s[0]) {
      DropSpacesRemovesRun(s[1..]);
      assert s[..|s| - |DropSpaces(s)|][1..] == s[1..][..|s[1..]| - |DropSpaces(s[1..])|];
    } else {
      assert s[..|s| - |DropSpaces(s)|] == [];
    }
  }

  /** Dropping the white space in front of `rest`, which does not start with white space. */
  lemma {:induction false} DropSpacesOfRun(run: string, rest: string)
    requires AllSpace(run)
    requires rest == [] || !IsSpace(rest[0])
    ensures DropSpaces(run + rest) == rest
    decreases |run|
  {
    if run == [] {
      assert run + rest == rest;
    } else {
      assert (run + rest)[1..] == run[1..] + rest;
      DropSpacesOfRun(run[1..], rest);
    }
  }

  /** A string that ends in a character other than white space keeps something, and
      whatever follows it is left alone. */
  lemma {:induction false} DropSpacesOfConcat(x: string, y: string)
    requires x != [] && !IsSpace(x[|x| - 1])
    ensures DropSpaces(x) != [] && DropSpaces(x)[|DropSpaces(x)| - 1] == x[|x| - 1]
    ensures DropSpaces(x + y) == DropSpaces(x) + y
    decreases |x|
  {
    if IsSpace(x[0]) {
      assert |x| >= 2;
      assert (x + y)[1..] == x[1..] + y;
      assert x[1..][|x[1..]| - 1] == x[|x| - 1];
      DropSpacesOfConcat(x[1..], y);
    }
  }

  // ---------------------------------------------------------------------------
  // Split and Join

  /** Splitting at a separator that is followed by `b` splits the two sides apart. */
  lemma {:induction false} SplitAtSep(a: string, b: string, sep: char)
    ensures Split(a + [sep] + b, sep) == Split(a, sep) + Split(b, sep)
    decreases |a|
  {
    if a == [] {
      assert a + [sep] + b == [sep] + b;
      assert ([sep] + b)[1..] == b;
    } else {
      var s := a + [sep] + b;
      assert s[0] == a[0];
      assert s[1..] == a[1..] + [sep] + b;
      SplitAtSep(a[1..], b, sep);
    }
  }

  /** A string without the separator is a single piece. */
  lemma {:induction false} SplitNoSep(s: string, sep: char)
    requires sep !in s
    ensures Split(s, sep) == [s]
    decreases |s|
  {
    if s != [] {
      SplitNoSep(s[1..], sep);
      assert [s[0]] + s[1..] == s;
    }
  }

  /** Joining the pieces back with the separator gives the original string. */
  lemma {:induction false} JoinSplit(s: string, sep: char)
    ensures Join(Split(s, sep), sep) == s
    decreases |s|
  {
    if s != [] {
      var rest := Split(s[1..], sep);
      JoinSplit(s[1..], sep);
      if s[0] == sep {
        assert ([""] + rest)[1..] == rest;
      } else {
        var parts := [[s[0]] + rest[0]] + rest[1..];
        assert parts[1..] == rest[1..];
        if |rest| > 1 {
          assert Join(rest, sep) == rest[0] + [sep] + Join(rest[1..], sep);
        }
      }
    }
  }

  /** Splitting a join of separator-free pieces gives the pieces back. */
  lemma {:induction false} SplitJoin(parts: seq<string>, sep: char)
    requires |parts| >= 1
    requires forall i :: 0 <= i < |parts| ==> sep !in parts[i]
    ensures Split(Join(parts, sep), sep) == parts
    decreases |parts|
  {
    SplitNoSep(parts[0], sep);
    if |parts| > 1 {
      SplitJoin(parts[1..], sep);
      SplitAtSep(parts[0], Join(parts[1..], sep), sep);
      assert [parts[0]] + parts[1..] == parts;
    }
  }

  /** Every piece is empty exactly when the string consists of separators only. */
  lemma {:induction false} SplitAllEmpty(s: string, sep: char)
    ensures (forall i :: 0 <= i < |Split(s, sep)| ==> Split(s, sep)[i] == "")
        <==> (forall j :: 0 <= j < |s| ==> s[j] == sep)
    decreases |s|
  {
    if s != [] {
      var rest := Split(s[1..], sep);
      SplitAllEmpty(s[1..], sep);
      if s[0] == sep {
        var parts := [""] + rest;
        assert Split(s, sep) == parts;
        if forall j :: 0 <= j < |s| ==> s[j] == sep {
          assert forall j :: 0 <= j < |s[1..]| ==> s[1..][j] == s[j + 1];
          assert forall i :: 0 <= i < |parts| ==> parts[i] == "" by {
            forall i | 0 <= i < |parts| ensures parts[i] == "" {
              if i > 0 { assert parts[i] == rest[i - 1]; }
            }
          }
        }
        if forall i :: 0 <= i < |parts| ==> parts[i] == "" {
          assert forall i :: 0 <= i < |rest| ==> rest[i] == parts[i + 1];
          assert forall j :: 0 <= j < |s| ==> s[j] == sep by {
            forall j | 0 <= j < |s| ensures s[j] == sep {
              if j > 0 { assert s[j] == s[1..][j - 1]; }
            }
          }
        }
      } else {
        assert Split(s, sep)[0] == [s[0]] + rest[0];
      }
    }
  }

  // ---------------------------------------------------------------------------
  // filter(Boolean)

  lemma {:induction false} FilterConcat(a: seq<string>, b: seq<string>)
    ensures FilterNonEmpty(a + b) == FilterNonEmpty(a) + FilterNonEmpty(b)
    decreases |a|
  {
    if a != [] {
      assert (a + b)[0] == a[0];
      assert (a + b)[1..] == a[1..] + b;
      FilterConcat(a[1..], b);
      if a[0] != "" {
        assert [a[0]] + (FilterNonEmpty(a[1..]) + FilterNonEmpty(b))
            == ([a[0]] + FilterNonEmpty(a[1..])) + FilterNonEmpty(b);
      }
    } else {
      assert a + b == b;
    }
  }

  /** Filtering keeps a list of non-empty strings as it is. */
  lemma {:induction false} FilterKeepsNonEmpty(parts: seq<string>)
    requires forall i :: 0 <= i < |parts| ==> parts[i] != ""
    ensures FilterNonEmpty(parts) == parts
    decreases |parts|
  {
    if parts != [] {
      FilterKeepsNonEmpty(parts[1..]);
      assert [parts[0]] + parts[1..] == parts;
    }
  }

  /** Filtering leaves nothing exactly when every string is empty. */
  lemma {:induction false} FilterEmptyIff(parts: seq<string>)
    ensures FilterNonEmpty(parts) == [] <==> forall i :: 0 <= i < |parts| ==> parts[i] == ""
    decreases |parts|
  {
    if parts != [] {
      FilterEmptyIff(parts[1..]);
      assert forall i :: 1 <= i < |parts| ==> parts[i] == parts[1..][i - 1];
    }
  }
}
