/** How the editor reads a file into lines and writes lines to a file (user/src/ed.c). */
module TextFiles {
  const MAX: nat := 255  // MAX_LINE_LEN - 1

  /** A C string ends at its first zero character. */
  function Cut(s: string): (r: string)
    ensures r <= s && '\0' !in r
  {
    if s == [] || s[0] == '\0' then [] else [s[0]] + Cut(s[1..])
  }

  lemma {:induction false} CutSame(s: string)
    ensures Cut(s) == s <==> '\0' !in s
    ensures '\0' in s ==> |Cut(s)| < |s| && s[|Cut(s)|] == '\0'
    decreases |s|
  {
    if s != [] && s[0] != '\0' {
      CutSame(s[1..]);
      assert '\0' in s <==> '\0' in s[1..];
    }
  }

  /**
   * The lines of the rest `t` of a file when `buf` is the line begun.  A full buffer is a line of
   * its own, and the character that does not fit is dropped.
   */
  function Split(t: string, buf: string): (lines: seq<string>)
    decreases |t|
  {
    if t == [] then if buf == [] then [] else [Cut(buf)]
    else if t[0] == '\n' || |buf| >= MAX then [Cut(buf)] + Split(t[1..], [])
    else Split(t[1..], buf + [t[0]])
  }

  /** A file with one newline behind every line. */
  function Join(lines: seq<string>): (t: string) {
    if lines == [] then [] else lines[0] + ['\n'] + Join(lines[1..])
  }

  /** A text that survives being stored as one line. */
  predicate Storable(line: string) {
    '\n' !in line && '\0' !in line && |line| <= MAX
  }

  lemma {:induction false} SplitStorable(t: string, buf: string)
    requires |buf| <= MAX && '\n' !in buf
    ensures forall k :: 0 <= k < |Split(t, buf)| ==> Storable(Split(t, buf)[k])
    decreases |t|
  {
    if t != [] {
      if t[0] == '\n' || |buf| >= MAX {
        SplitStorable(t[1..], []);
      } else {
        SplitStorable(t[1..], buf + [t[0]]);
      }
    }
  }

  lemma {:induction false} SplitLine(line: string, rest: string, buf: string)
    requires '\n' !in line && |buf| + |line| <= MAX
    ensures Split(line + ['\n'] + rest, buf) == [Cut(buf + line)] + Split(rest, [])
    decreases |line|
  {
    var t := line + ['\n'] + rest;
    if line == [] {
      assert t[1..] == rest && buf + line == buf;
    } else {
      assert t[1..] == line[1..] + ['\n'] + rest;
      assert buf + [line[0]] + line[1..] == buf + line;
      SplitLine(line[1..], rest, buf + [line[0]]);
    }
  }

  /** Saved and loaded again, lines come back exactly when each of them is storable. */
  lemma {:induction false} SplitJoin(lines: seq<string>)
    ensures Split(Join(lines), []) == lines <==> forall k :: 0 <= k < |lines| ==> Storable(lines[k])
    decreases |lines|
  {
    SplitStorable(Join(lines), []);
    if lines != [] && forall k :: 0 <= k < |lines| ==> Storable(lines[k]) {
      SplitJoin(lines[1..]);
      SplitLine(lines[0], Join(lines[1..]), []);
      CutSame(lines[0]);
      assert [] + lines[0] == lines[0];
    }
  }

  // ------------------------------------------------- loaded and saved unchanged

  /** The file comes back unchanged, followed character by character. */
  predicate Kept(t: string, buf: string)
    decreases |t|
  {
    if t == [] then buf == []
    else if t[0] == '\n' then '\0' !in buf && Kept(t[1..], [])
    else |buf| < MAX && Kept(t[1..], buf + [t[0]])
  }

  lemma {:induction false} JoinSplitKept(t: string, buf: string)
    requires |buf| <= MAX && '\n' !in buf
    ensures Join(Split(t, buf)) == buf + t <==> Kept(t, buf)
    decreases |t|
  {
    CutSame(buf);
    if t == [] {
      assert buf + t == buf;
    } else if t[0] == '\n' || |buf| >= MAX {
      JoinSplitKept(t[1..], []);
      var lines := Split(t[1..], []);
      assert Join(Split(t, buf)) == Cut(buf) + ['\n'] + Join(lines) by {
        assert ([Cut(buf)] + lines)[1..] == lines;
      }
      LineInFront(Cut(buf), Join(lines), buf, t);
    } else {
      JoinSplitKept(t[1..], buf + [t[0]]);
      assert buf + [t[0]] + t[1..] == buf + t;
    }
  }

  lemma LineInFront(cut: string, rest: string, buf: string, t: string)
    requires t != [] && cut <= buf && '\n' !in buf
    ensures cut + ['\n'] + rest == buf + t <==> cut == buf && t[0] == '\n' && rest == [] + t[1..]
  {
    var s := cut + ['\n'] + rest;
    assert s[|cut|] == '\n';
    if |cut| < |buf| {
      assert (buf + t)[|cut|] == buf[|cut|] != '\n';
    } else if s == buf + t {
      assert s[|cut| + 1..] == rest && (buf + t)[|cut| + 1..] == t[1..];
    }
    if cut == buf && t[0] == '\n' && rest == [] + t[1..] {
      assert t == ['\n'] + t[1..];
    }
  }

  /** There is a newline among the MAX + 1 characters from `i` on. */
  ghost predicate Broken(t: string, i: nat) {
    exists j :: i <= j <= i + MAX && j < |t| && t[j] == '\n'
  }

  /** No stretch of MAX + 1 characters without a newline. */
  ghost predicate ShortLines(t: string) {
    forall i: nat :: i + MAX < |t| ==> Broken(t, i)
  }

  ghost predicate EndsInNewline(t: string) {
    t == [] || t[|t| - 1] == '\n'
  }

  lemma ShortAfter(buf: string, t: string)
    requires |buf| <= MAX && '\n' !in buf && t != [] && t[0] == '\n'
    ensures ShortLines(buf + t) <==> ShortLines(t[1..])
  {
    var s, n := buf + t, |buf| + 1;
    var rest := s[n..];
    assert rest == t[1..];
    if ShortLines(s) {
      forall i: nat | i + MAX < |rest| ensures Broken(rest, i) {
        assert Broken(s, n + i);
        var j :| n + i <= j <= n + i + MAX && j < |s| && s[j] == '\n';
        assert rest[j - n] == '\n';
      }
    }
    if ShortLines(rest) {
      forall i: nat | i + MAX < |s| ensures Broken(s, i) {
        if i < n {
          assert s[n - 1] == '\n';
        } else {
          assert Broken(rest, i - n);
          var j :| i - n <= j <= i - n + MAX && j < |rest| && rest[j] == '\n';
          assert s[n + j] == '\n';
        }
      }
    }
  }

  ghost predicate Plain(t: string) {
    '\0' !in t && EndsInNewline(t) && ShortLines(t)
  }

  lemma PlainAfter(buf: string, t: string)
    requires |buf| <= MAX && '\n' !in buf && t != [] && t[0] == '\n'
    ensures Plain(buf + t) <==> '\0' !in buf && Plain(t[1..])
  {
    ShortAfter(buf, t);
    hide ShortLines;
    var rest := t[1..];
    assert buf + t == buf + ['\n'] + rest;
    if rest != [] {
      assert (buf + t)[|buf + t| - 1] == rest[|rest| - 1];
    }
  }

  lemma PlainShort(buf: string, t: string)
    requires |buf| == MAX && '\n' !in buf && t != [] && t[0] != '\n'
    ensures !Plain(buf + t)
  {
    assert !Broken(buf + t, 0);
  }

  lemma {:induction false} KeptMeans(t: string, buf: string)
    requires |buf| <= MAX && '\n' !in buf
    ensures Kept(t, buf) <==> Plain(buf + t)
    decreases |t|
  {
    if t == [] {
      assert buf + t == buf;
    } else if t[0] == '\n' {
      hide Plain;
      KeptMeans(t[1..], []);
      PlainAfter(buf, t);
      assert [] + t[1..] == t[1..];
    } else if |buf| < MAX {
      hide Plain;
      KeptMeans(t[1..], buf + [t[0]]);
      assert buf + [t[0]] + t[1..] == buf + t;
    } else {
      PlainShort(buf, t);
    }
  }

  /**
   * Loaded and saved again, a file is unchanged exactly when it is empty or ends in a newline,
   * has no zero characters and no line of more than MAX characters.
   */
  lemma JoinSplit(t: string)
    ensures Join(Split(t, [])) == t <==> '\0' !in t && EndsInNewline(t) && ShortLines(t)
  {
    JoinSplitKept(t, []);
    KeptMeans(t, []);
    assert [] + t == t;
  }

  // ---------------------------------------------------------------- the file

  /** Writing over a file from position `at`, which is inside it or at its end. */
  function Overwrite(file: string, at: nat, s: string): (r: string)
    requires at <= |file|
    ensures |r| >= at + |s|
  {
    file[..at] + s + (if at + |s| <= |file| then file[at + |s|..] else [])
  }

  lemma OverwriteTwice(file: string, at: nat, a: string, b: string)
    requires at <= |file|
    ensures Overwrite(Overwrite(file, at, a), at + |a|, b) == Overwrite(file, at, a + b)
  {
  }

  lemma {:induction false} JoinAfter(lines: seq<string>, line: string)
    ensures Join(lines + [line]) == Join(lines) + line + ['\n']
    decreases |lines|
  {
    if lines == [] {
      assert lines + [line] == [line];
    } else {
      assert (lines + [line])[1..] == lines[1..] + [line];
      JoinAfter(lines[1..], line);
    }
  }

  lemma JoinRest(lines: seq<string>, rest: string)
    requires lines != []
    ensures Join(lines) + rest == lines[0] + ['\n'] + (Join(lines[1..]) + rest)
  {
  }

  lemma ConsRest(lines: seq<string>, rest: seq<string>)
    requires lines != []
    ensures [lines[0]] + (lines[1..] + rest) == lines + rest
  {
  }

  lemma {:induction false} SplitJoinRest(lines: seq<string>, rest: string)
    requires forall k :: 0 <= k < |lines| ==> Storable(lines[k])
    ensures Split(Join(lines) + rest, []) == lines + Split(rest, [])
    decreases |lines|
  {
    hide Split, Cut;
    if lines == [] {
      assert Join(lines) + rest == rest;
      assert lines + Split(rest, []) == Split(rest, []);
    } else {
      var line, more := lines[0], Join(lines[1..]) + rest;
      JoinRest(lines, rest);
      hide Join;
      assert Storable(line);
      SplitLine(line, more, []);
      CutSame(line);
      assert [] + line == line;
      SplitJoinRest(lines[1..], rest);
      hide Storable;
      ConsRest(lines, Split(rest, []));
    }
  }

  lemma {:induction false} SplitNotEmpty(t: string, buf: string)
    requires t != [] || buf != []
    ensures Split(t, buf) != []
    decreases |t|
  {
    if t != [] && t[0] != '\n' && |buf| < MAX {
      SplitNotEmpty(t[1..], buf + [t[0]]);
    }
  }

  /**
   * What comes back when the lines are saved over a file and loaded again: exactly those lines if
   * and only if each can be stored and the file was not longer before.
   */
  lemma SaveThenLoad(file: string, lines: seq<string>)
    ensures Split(Overwrite(file, 0, Join(lines)), []) == lines <==>
      (forall k :: 0 <= k < |lines| ==> Storable(lines[k])) && |file| <= |Join(lines)|
  {
    var saved := Overwrite(file, 0, Join(lines));
    SplitStorable(saved, []);
    if forall k :: 0 <= k < |lines| ==> Storable(lines[k]) {
      var rest := saved[|Join(lines)|..];
      assert saved == Join(lines) + rest;
      SplitJoinRest(lines, rest);
      if |file| > |Join(lines)| {
        SplitNotEmpty(rest, []);
      } else {
        assert rest == [];
        assert lines + [] == lines;
      }
    }
  }
}
