/** String helpers shared by the ranking and the biography code: JavaScript's
    `String.prototype.includes`, `split` on a one-character separator and
    `Array.prototype.join`, on strings modelled as `seq<char>`. */
module Text {

  datatype Option<+T> = None | Some(value: T) {
    function GetOr(default: T): T {
      match this
      case Some(v) => v
      case None => default
    }
  }

  /** `s.includes(sub)`: `sub` occurs in `s` as a contiguous block. */
  predicate Includes(s: string, sub: string)
    decreases |s|
  {
    if |sub| > |s| then false
    else if s[..|sub|] == sub then true
    else Includes(s[1..], sub)
  }

  /** `cs.some(c => c.includes(x))` */
  predicate AnyIncludes(cs: seq<string>, x: string) {
    exists c :: c in cs && Includes(c, x)
  }

  /** `sub` occurs in `s` starting at index `i`. */
  predicate OccursAt(s: string, sub: string, i: int) {
    0 <= i && i + |sub| <= |s| && s[i..i + |sub|] == sub
  }

  /** `Includes` is the search for an occurrence at some index. */
  lemma {:induction false} IncludesOccurs(s: string, sub: string)
    ensures Includes(s, sub) <==> exists i :: OccursAt(s, sub, i)
    decreases |s|
  {
    if |sub| <= |s| && s[..|sub|] == sub {
      assert OccursAt(s, sub, 0);
    } else if |sub| <= |s| {
      var t := s[1..];
      IncludesOccurs(t, sub);
      if Includes(s, sub) {
        var j :| OccursAt(t, sub, j);
        assert t[j..j + |sub|] == s[j + 1..j + 1 + |sub|];
        assert OccursAt(s, sub, j + 1);
      }
      if exists i :: OccursAt(s, sub, i) {
        var i :| OccursAt(s, sub, i);
        assert i != 0;
        assert s[i..i + |sub|] == t[i - 1..i - 1 + |sub|];
        assert OccursAt(t, sub, i - 1);
      }
    }
  }

  /** Any string includes each of its suffixes. */
  lemma {:induction false} IncludesSuffix(a: string, b: string)
    ensures Includes(a + b, b)
  {
    if a != [] && (a + b)[..|b|] != b {
      assert (a + b)[1..] == a[1..] + b;
      IncludesSuffix(a[1..], b);
    }
  }

  /** `s.split(sep)` for a single-character separator: the maximal runs
      between separators, so there is always at least one part. */
  function Split(s: string, sep: char): (parts: seq<string>)
    ensures |parts| >= 1
    ensures forall i :: 0 <= i < |parts| ==> sep !in parts[i]
  {
    if s == [] then [[]]
    else
      var rest := Split(s[1..], sep);
      if s[0] == sep then [[]] + rest
      else [[s[0]] + rest[0]] + rest[1..]
  }

  /** `parts.join(sep)` */
  function Join(parts: seq<string>, sep: string): string {
    if parts == [] then []
    else if |parts| == 1 then parts[0]
    else parts[0] + sep + Join(parts[1..], sep)
  }

  lemma JoinConsHead(c: char, a: string, rest: seq<string>, sep: string)
    ensures Join([[c] + a] + rest, sep) == [c] + Join([a] + rest, sep)
  {
    var p, q := [[c] + a] + rest, [a] + rest;
    assert p[1..] == rest && q[1..] == rest;
  }

  /** Joining the parts of a split with the same separator gives the input back. */
  lemma {:induction false} SplitJoin(s: string, sep: char)
    ensures Join(Split(s, sep), [sep]) == s
  {
    if s != [] {
      var rest := Split(s[1..], sep);
      SplitJoin(s[1..], sep);
      if s[0] == sep {
        var p := [[]] + rest;
        assert Split(s, sep) == p;
        assert p[1..] == rest;
        assert s == [sep] + s[1..];
      } else {
        assert Split(s, sep) == [[s[0]] + rest[0]] + rest[1..];
        JoinConsHead(s[0], rest[0], rest[1..], [sep]);
        assert [rest[0]] + rest[1..] == rest;
        assert s == [s[0]] + s[1..];
      }
    }
  }

  /** A split into a single part leaves the string whole: it has no separator. */
  lemma {:induction false} SplitSingle(s: string, sep: char)
    ensures |Split(s, sep)| == 1 ==> Split(s, sep)[0] == s && sep !in s
  {
    if s != [] && s[0] != sep {
      var rest := Split(s[1..], sep);
      SplitSingle(s[1..], sep);
      assert s == [s[0]] + s[1..];
    }
  }

  /** Joining peels off the last part. */
  lemma {:induction false} JoinSnoc(parts: seq<string>, sep: string)
    requires |parts| > 1
    ensures Join(parts, sep) == Join(parts[..|parts| - 1], sep) + sep + parts[|parts| - 1]
  {
    var n := |parts|;
    var last := parts[n - 1];
    if n > 2 {
      var tail := parts[1..];
      JoinSnoc(tail, sep);
      var init := parts[..n - 1];
      assert init[1..] == tail[..|tail| - 1];
      assert tail[|tail| - 1] == last;
      var x := Join(tail[..|tail| - 1], sep);
      assert Join(parts, sep) == parts[0] + sep + (x + sep + last);
      assert Join(init, sep) == parts[0] + sep + x;
      Reassociate(parts[0], sep, x, last);
    } else {
      assert parts[1..] == [last];
      assert parts[..1] == [parts[0]];
    }
  }

  lemma Reassociate(a: string, sep: string, x: string, last: string)
    ensures a + sep + (x + sep + last) == (a + sep + x) + sep + last
  {
  }

  /** What `split(sep).slice(0, -1).join(sep)` keeps: with more than one part,
      everything before the last separator. */
  lemma SplitDropLast(s: string, sep: char)
    ensures var p := Split(s, sep);
      |p| > 1 ==> Join(p[..|p| - 1], [sep]) + [sep] + p[|p| - 1] == s
  {
    var p := Split(s, sep);
    SplitJoin(s, sep);
    if |p| > 1 {
      JoinSnoc(p, [sep]);
    }
  }
}
