/**
  Python's `os.path.splitext` on a POSIX system: the extension starts at the
  last `.` after the last `/`, except that dots leading the final path
  component do not start an extension (`.bashrc` and `...` have none).
 */
module PathSplit {
  import opened Text

  /** Some character of `p[lo..hi]` is not a dot. */
  predicate HasNonDot(p: string, lo: int, hi: int)
    requires 0 <= lo && hi <= |p|
  {
    exists i :: lo <= i < hi && p[i] != '.'
  }

  /** `(root, ext)` with `root + ext == p`. */
  function SplitExt(p: string): (r: (string, string))
    ensures r.0 + r.1 == p
  {
    var sepIndex := RFind(p, '/');
    var dotIndex := RFind(p, '.');
    if dotIndex > sepIndex && HasNonDot(p, sepIndex + 1, dotIndex) then
      assert p[..dotIndex] + p[dotIndex..] == p;
      (p[..dotIndex], p[dotIndex..])
    else
      (p, [])
  }

  /**
    A non-empty extension is a dot followed by neither dot nor `/`, and the
    root before it has a non-dot character in its last path component.
   */
  lemma SplitExtShape(p: string)
    ensures var (b, e) := SplitExt(p);
      e == [] || (e[0] == '.' && '.' !in e[1..] && '/' !in e && HasNonDot(b, RFind(b, '/') + 1, |b|))
  {
    var sepIndex := RFind(p, '/');
    var dotIndex := RFind(p, '.');
    if dotIndex > sepIndex && HasNonDot(p, sepIndex + 1, dotIndex) {
      var b, e := p[..dotIndex], p[dotIndex..];
      assert e[1..] == p[dotIndex + 1..];
      if sepIndex >= 0 {
        NotInLaterSuffix(p, '/', sepIndex + 1, dotIndex);
      }
      assert b + e == p;
      RFindAppendWithout(b, e, '/');
      var i :| sepIndex + 1 <= i < dotIndex && p[i] != '.';
      assert b[i] == p[i];
    }
  }

  /** The root gets no extension when no dot after the last `/` may start one. */
  lemma SplitExtNone(p: string)
    requires !(RFind(p, '.') > RFind(p, '/') && HasNonDot(p, RFind(p, '/') + 1, RFind(p, '.')))
    ensures SplitExt(p) == (p, [])
  {
  }

  /** The extension starts at the last dot when a non-dot precedes it in the last component. */
  lemma SplitExtAt(q: string, d: int)
    requires d == RFind(q, '.') && d > RFind(q, '/')
    requires HasNonDot(q, RFind(q, '/') + 1, d)
    ensures SplitExt(q) == (q[..d], q[d..])
  {
  }

  /** Text after the end changes nothing about a range inside the string. */
  lemma HasNonDotAppend(p: string, t: string, lo: int, hi: int)
    requires 0 <= lo && hi <= |p|
    ensures HasNonDot(p + t, lo, hi) == HasNonDot(p, lo, hi)
  {
    if HasNonDot(p + t, lo, hi) {
      var i :| lo <= i < hi && (p + t)[i] != '.';
      assert p[i] == (p + t)[i];
    }
    if HasNonDot(p, lo, hi) {
      var i :| lo <= i < hi && p[i] != '.';
      assert p[i] == (p + t)[i];
    }
  }

  lemma SplitExtEmpty(p: string)
    requires SplitExt(p).1 == []
    ensures !(RFind(p, '.') > RFind(p, '/') && HasNonDot(p, RFind(p, '/') + 1, RFind(p, '.')))
  {
  }

  lemma InsertWithoutExt(p: string, t: string)
    requires '.' !in t && '/' !in t
    requires SplitExt(p).1 == []
    ensures SplitExt(p + t) == (p + t, [])
  {
    var sep, dot := RFind(p, '/'), RFind(p, '.');
    SplitExtEmpty(p);
    RFindAppendWithout(p, t, '/');
    RFindAppendWithout(p, t, '.');
    if dot > sep {
      HasNonDotAppend(p, t, sep + 1, dot);
    }
    SplitExtNone(p + t);
  }

  lemma LastDotOfExt(bt: string, e: string)
    requires e != [] && e[0] == '.' && '.' !in e[1..]
    ensures RFind(bt + e, '.') == |bt|
  {
    assert e == [e[0]] + e[1..];
    assert RFind(e, '.') == 0;
    RFindAppendWith(bt, e, '.');
  }

  lemma LastSlashOfInsert(b: string, t: string, e: string)
    requires '/' !in t && '/' !in e
    ensures RFind(b + t + e, '/') == RFind(b, '/')
  {
    RFindAppendWithout(b, t, '/');
    RFindAppendWithout(b + t, e, '/');
  }

  lemma NonDotKept(b: string, t: string, e: string, lo: int)
    requires 0 <= lo && HasNonDot(b, lo, |b|)
    ensures HasNonDot(b + t + e, lo, |b| + |t|)
  {
    var i :| lo <= i < |b| && b[i] != '.';
    assert (b + t + e)[i] == b[i];
  }

  lemma InsertBeforeExt(b: string, t: string, e: string)
    requires '.' !in t && '/' !in t
    requires e != [] && e[0] == '.' && '.' !in e[1..] && '/' !in e
    requires HasNonDot(b, RFind(b, '/') + 1, |b|)
    ensures SplitExt(b + t + e) == (b + t, e)
  {
    var q := b + t + e;
    var d := |b| + |t|;
    LastDotOfExt(b + t, e);
    LastSlashOfInsert(b, t, e);
    NonDotKept(b, t, e, RFind(b, '/') + 1);
    SplitExtAt(q, d);
    assert q[..d] == b + t;
    assert q[d..] == e;
  }

  /**
    Appending text without `.` or `/` to the root keeps the extension: the
    probe names `base_1.txt`, `base_2.txt`, ... split back into their own base
    and the original extension.
   */
  lemma SplitExtInsertBeforeExt(p: string, t: string)
    requires '.' !in t && '/' !in t
    ensures SplitExt(SplitExt(p).0 + t + SplitExt(p).1) == (SplitExt(p).0 + t, SplitExt(p).1)
  {
    var (b, e) := SplitExt(p);
    SplitExtShape(p);
    if e == [] {
      assert b + t + e == p + t;
      InsertWithoutExt(p, t);
    } else {
      InsertBeforeExt(b, t, e);
    }
  }
}
