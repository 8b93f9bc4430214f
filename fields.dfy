/** Splitting text at a separator character and joining fields with it: the
    dotted form of IPv4 addresses and the colon form of IPv6 addresses. */
module Fields {

  /** The fields of s between occurrences of sep; always at least one. */
  function Split(s: string, sep: char): (fields: seq<string>)
    ensures |fields| >= 1
    decreases |s|
  {
    if s == [] then [[]]
    else
      var rest := Split(s[1..], sep);
      if s[0] == sep then [[]] + rest else [[s[0]] + rest[0]] + rest[1..]
  }

  /** The fields with sep between consecutive ones. */
  function Join(fields: seq<string>, sep: char): string
  {
    if |fields| == 0 then []
    else if |fields| == 1 then fields[0]
    else fields[0] + [sep] + Join(fields[1..], sep)
  }

  /** Fields that Join keeps apart: none empty, none holding the separator. */
  predicate Separable(fields: seq<string>, sep: char)
  {
    forall i :: 0 <= i < |fields| ==> fields[i] != [] && sep !in fields[i]
  }

  lemma {:induction false} SplitNoSeparator(s: string, sep: char)
    requires sep !in s
    ensures Split(s, sep) == [s]
    decreases |s|
  {
    if s != [] {
      SplitNoSeparator(s[1..], sep);
      assert [s[0]] + s[1..] == s;
    }
  }

  lemma {:induction false} SplitAtSeparator(p: string, sep: char, r: string)
    requires sep !in p
    ensures Split(p + [sep] + r, sep) == [p] + Split(r, sep)
    decreases |p|
  {
    var s := p + [sep] + r;
    if p == [] {
      assert s[1..] == r;
    } else {
      assert s[1..] == p[1..] + [sep] + r;
      SplitAtSeparator(p[1..], sep, r);
      assert [p[0]] + p[1..] == p;
    }
  }

  /** Split undoes Join on separable fields. */
  lemma {:induction false} SplitJoin(fields: seq<string>, sep: char)
    requires |fields| >= 1 && Separable(fields, sep)
    ensures Split(Join(fields, sep), sep) == fields
    decreases |fields|
  {
    if |fields| == 1 {
      SplitNoSeparator(fields[0], sep);
    } else {
      assert Separable(fields[1..], sep) by {
        forall i | 0 <= i < |fields| - 1 ensures fields[1..][i] != [] && sep !in fields[1..][i] {
          assert fields[1..][i] == fields[i + 1];
        }
      }
      SplitJoin(fields[1..], sep);
      SplitAtSeparator(fields[0], sep, Join(fields[1..], sep));
    }
  }

  lemma JoinFour(fields: seq<string>, sep: char)
    requires |fields| == 4
    ensures Join(fields, sep) == fields[0] + [sep] + fields[1] + [sep] + fields[2] + [sep] + fields[3]
  {
    var t := fields[1..];
    var u := t[1..];
    assert u[1..] == [fields[3]];
    assert Join(u, sep) == fields[2] + [sep] + fields[3];
    assert Join(t, sep) == fields[1] + [sep] + Join(u, sep);
  }

  /** Joining the fields of a split gives back the text. */
  lemma {:induction false} JoinSplit(s: string, sep: char)
    ensures Join(Split(s, sep), sep) == s
    decreases |s|
  {
    if s != [] {
      var rest := Split(s[1..], sep);
      JoinSplit(s[1..], sep);
      if s[0] == sep {
        assert Split(s, sep) == [[]] + rest;
        assert ([[]] + rest)[1..] == rest;
      } else {
        var fields := [[s[0]] + rest[0]] + rest[1..];
        if |rest| == 1 {
          assert Join(fields, sep) == [s[0]] + rest[0];
        } else {
          assert fields[1..] == rest[1..];
          assert Join(rest, sep) == rest[0] + [sep] + Join(rest[1..], sep);
        }
        assert [s[0]] + s[1..] == s;
      }
    }
  }

  /** Every character of a join is a separator or comes from a field. */
  lemma {:induction false} JoinCharacters(fields: seq<string>, sep: char, c: char)
    requires c != sep && c in Join(fields, sep)
    ensures exists i :: 0 <= i < |fields| && c in fields[i]
    decreases |fields|
  {
    if |fields| > 1 {
      var j := Join(fields[1..], sep);
      if c !in fields[0] {
        assert c in j;
        JoinCharacters(fields[1..], sep, c);
        var i :| 0 <= i < |fields| - 1 && c in fields[1..][i];
        assert c in fields[i + 1];
      }
    }
  }

  /** Joining separable fields never puts two separators side by side nor
      starts or ends with one. */
  lemma {:induction false} JoinNoDoubleSeparator(fields: seq<string>, sep: char)
    requires Separable(fields, sep)
    ensures var s := Join(fields, sep);
      && (|fields| >= 1 ==> |s| >= 1 && s[0] != sep && s[|s| - 1] != sep)
      && (forall i :: 0 <= i < |s| - 1 ==> !(s[i] == sep && s[i + 1] == sep))
    decreases |fields|
  {
    if |fields| > 1 {
      var f, j := fields[0], Join(fields[1..], sep);
      assert Separable(fields[1..], sep) by {
        forall i | 0 <= i < |fields| - 1 ensures fields[1..][i] != [] && sep !in fields[1..][i] {
          assert fields[1..][i] == fields[i + 1];
        }
      }
      JoinNoDoubleSeparator(fields[1..], sep);
      var s := f + [sep] + j;
      assert s == Join(fields, sep);
      forall i | 0 <= i < |s| - 1 ensures !(s[i] == sep && s[i + 1] == sep) {
        if i < |f| {
          assert s[i] == f[i];
          assert f[i] in f;
        } else if i > |f| {
          assert s[i] == j[i - |f| - 1] && s[i + 1] == j[i - |f|];
        } else {
          assert s[i + 1] == j[0];
        }
      }
      assert s[0] == f[0];
      assert s[|s| - 1] == j[|j| - 1];
    }
  }

  /** Every character of a text other than the separator lies in one of its
      fields. */
  lemma SplitCharacters(s: string, sep: char, c: char)
    requires c != sep && c in s
    ensures exists i :: 0 <= i < |Split(s, sep)| && c in Split(s, sep)[i]
  {
    JoinSplit(s, sep);
    JoinCharacters(Split(s, sep), sep, c);
  }

  // ---------------------------------------------------------------------
  // C strings
  // ---------------------------------------------------------------------

  /** What a C library function reads from a character buffer: the
      characters before the first NUL, or all of them when there is none. */
  function CString(s: string): (r: string)
    ensures r <= s && '\0' !in r
    ensures |r| < |s| ==> s[|r|] == '\0'
  {
    if s == [] || s[0] == '\0' then [] else [s[0]] + CString(s[1..])
  }

  /** Text without a NUL, followed by a NUL, is read as exactly that text,
      whatever follows the NUL. */
  lemma {:induction false} CStringTerminated(t: string, rest: string)
    requires '\0' !in t
    ensures CString(t + "\0" + rest) == t
    decreases |t|
  {
    var s := t + "\0" + rest;
    if t == [] {
      assert s[0] == '\0';
    } else {
      assert s[0] == t[0] && s[1..] == t[1..] + "\0" + rest;
      CStringTerminated(t[1..], rest);
      assert [t[0]] + t[1..] == t;
    }
  }

}
