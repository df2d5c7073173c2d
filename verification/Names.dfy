/**
  8.3 names: cutting a path into directory-form names, and printing a directory-form name.
*/
module Names {
  import opened Bytes

  const SPACE: byte := 0x20
  const SLASH: byte := 0x2F
  const DOT: byte := 0x2E

  type Sfn = s: seq<byte> | |s| == 11 witness seq(11, _ => SPACE)

  /** The upper half of a single-byte code page, mapped to upper case. */
  type CodePage = t: seq<byte> | |t| == 128 witness seq(128, _ => 0)

  /** A character of a NUL-terminated string. */
  function At(path: seq<byte>, p: nat): byte {
    if p < |path| then path[p] else 0
  }

  predicate IsLower(c: byte) {
    0x61 <= c <= 0x7A
  }

  function Upper(cvt: CodePage, c: byte): byte {
    var d := if c >= 0x80 then cvt[c - 0x80] else c;
    if IsLower(d) then d - 0x20 else d
  }

  // ---------- from path to name ----------

  /** A name cut from a path: its directory form, where the path goes on, and the character that ended it. */
  datatype Segment = Segment(name: Sfn, next: nat, stop: byte) {
    predicate Last() {
      stop <= SPACE
    }
  }

  /** Scans on at `p`, with `i` characters of the name set and `ni` the end of the current field. */
  function Scan(cvt: CodePage, path: seq<byte>, p: nat, i: nat, ni: nat, name: Sfn): (s: Segment)
    requires i <= ni <= 11
    ensures p < s.next && (!s.Last() ==> s.next <= |path|)
    decreases |path| - p
  {
    var c := At(path, p);
    if c <= SPACE || c == SLASH then Segment(name, p + 1, c)
    else if c == DOT || i >= ni then
      if ni != 8 || c != DOT then Segment(name, p + 1, c) else Scan(cvt, path, p + 1, 8, 11, name)
    else Scan(cvt, path, p + 1, i + 1, ni, name[i := Upper(cvt, c)])
  }

  function NameAt(cvt: CodePage, path: seq<byte>, p: nat): (s: Segment)
    ensures p < s.next && (!s.Last() ==> s.next <= |path|)
  {
    Scan(cvt, path, p, 0, 8, seq(11, _ => SPACE))
  }

  /** Cuts the next name from a path into `sfn`, whose last byte flags the last name of the path. */
  method CreateName(cvt: CodePage, path: seq<byte>, pos: nat, sfn: array<byte>) returns (next: nat)
    requires sfn.Length == 12
    modifies sfn
    ensures var s := NameAt(cvt, path, pos);
            next == s.next && sfn[..11] == s.name && sfn[11] == (if s.Last() then 1 else 0)
  {
    forall k | 0 <= k < 11 {
      sfn[k] := SPACE;
    }
    var i, ni, si := 0, 8, 0;
    var c: byte;
    assert sfn[..11] == seq(11, _ => SPACE);
    while true
      invariant 0 <= i <= ni <= 11
      invariant Scan(cvt, path, pos + si, i, ni, sfn[..11]) == NameAt(cvt, path, pos)
      decreases |path| - (pos + si)
    {
      c := At(path, pos + si);
      si := si + 1;
      if c <= SPACE || c == SLASH {
        break;
      }
      if c == DOT || i >= ni {
        if ni != 8 || c != DOT {
          break;
        }
        i, ni := 8, 11;
      } else {
        ghost var before := sfn[..11];
        sfn[i] := Upper(cvt, c);
        assert sfn[..11] == before[i := Upper(cvt, c)];
        i := i + 1;
      }
    }
    next := pos + si;
    assert Segment(sfn[..11], next, c) == NameAt(cvt, path, pos);
    sfn[11] := if c <= SPACE then 1 else 0;
    assert sfn[..11] == NameAt(cvt, path, pos).name;
  }

  // ---------- from name to text ----------

  /** The bytes before the first space. */
  function Trim(s: seq<byte>): (t: seq<byte>)
    ensures |t| <= |s|
  {
    if s == [] || s[0] == SPACE then [] else [s[0]] + Trim(s[1..])
  }

  /** A first byte 0x05 stands for 0xE5, anywhere in the body. */
  function Unescape(s: seq<byte>): seq<byte> {
    if s == [] then [] else [Escaped(s[0])] + Unescape(s[1..])
  }

  /** The printed form of a directory-form name. */
  function Print(name: Sfn): seq<byte> {
    Unescape(Trim(name[..8])) + if name[8] == SPACE then [] else [DOT] + Trim(name[8..])
  }

  function Escaped(c: byte): byte {
    if c == 0x05 then 0xE5 else c
  }

  lemma BodyNext(body: seq<byte>, n: nat)
    requires n < |body| && body[n] != SPACE
    ensures Unescape(Trim(body[n..])) == [Escaped(body[n])] + Unescape(Trim(body[n + 1..]))
  {
    assert body[n..][1..] == body[n + 1..];
    assert Trim(body[n..]) == [body[n]] + Trim(body[n + 1..]);
  }

  lemma BodyEnd(body: seq<byte>, n: nat)
    requires n <= |body| && (n < |body| ==> body[n] == SPACE)
    ensures Trim(body[n..]) == Unescape(Trim(body[n..])) == []
  {
  }

  method CopyBody(dir: array<byte>, fname: array<byte>) returns (n: nat)
    requires dir.Length == 32 && fname.Length == 13 && dir != fname
    modifies fname
    ensures n <= 8 && fname[..n] == Unescape(Trim(dir[..8]))
  {
    hide Unescape, Trim;
    n := 0;
    ghost var body := dir[..8];
    assert body[0..] == body;
    while n < 8 && dir[n] != SPACE
      invariant n <= 8
      invariant Unescape(Trim(body)) == fname[..n] + Unescape(Trim(body[n..]))
    {
      var c := dir[n];
      BodyNext(body, n);
      ghost var done := fname[..n];
      fname[n] := if c == 0x05 then 0xE5 else c;
      assert fname[..n + 1] == done + [Escaped(c)];
      n := n + 1;
    }
    BodyEnd(body, n);
  }

  method CopyExt(dir: array<byte>, fname: array<byte>, start: nat) returns (n: nat)
    requires dir.Length == 32 && fname.Length == 13 && dir != fname && start <= 9
    modifies fname
    ensures n <= start + 3 && fname[..n] == old(fname[..start]) + Trim(dir[8..11])
  {
    n := start;
    var i := 0;
    ghost var ext, before := dir[8..11], fname[..start];
    assert ext[0..] == ext;
    while i < 3 && dir[8 + i] != SPACE
      invariant 0 <= i <= 3 && n == start + i
      invariant before + Trim(ext) == fname[..n] + Trim(ext[i..])
    {
      ghost var done, rest := fname[..n], ext[i..];
      fname[n] := dir[8 + i];
      assert rest[0] == dir[8 + i] && rest[1..] == ext[i + 1..];
      assert fname[..n + 1] == done + [fname[n]];
      n, i := n + 1, i + 1;
    }
  }

  /** Prints the name of a directory entry as a NUL-terminated string. */
  method GetFileName(dir: array<byte>, fname: array<byte>) returns (n: nat)
    requires dir.Length == 32 && fname.Length == 13 && dir != fname
    modifies fname
    ensures n <= 12 && fname[..n] == Print(dir[..11]) && fname[n] == 0
  {
    ghost var name := dir[..11];
    assert name[..8] == dir[..8] && name[8..] == dir[8..11];
    n := CopyBody(dir, fname);
    if dir[8] != SPACE {
      ghost var body := fname[..n];
      fname[n] := DOT;
      assert fname[..n + 1] == body + [DOT];
      n := CopyExt(dir, fname, n + 1);
    }
    ghost var text := fname[..n];
    fname[n] := 0;
    assert fname[..n] == text;
  }

  // ---------- the two agree on 8.3 names ----------

  /** A character that may stand in an ASCII 8.3 name. */
  predicate NameChar(c: byte) {
    SPACE < c < 0x80 && c != SLASH && c != DOT
  }

  predicate NameText(s: seq<byte>) {
    forall i | 0 <= i < |s| :: NameChar(s[i])
  }

  /** A body of one to eight characters and an extension of none to three. */
  predicate Proper(body: seq<byte>, ext: seq<byte>) {
    1 <= |body| <= 8 && |ext| <= 3 && NameText(body) && NameText(ext)
  }

  function Text(body: seq<byte>, ext: seq<byte>): seq<byte> {
    body + if ext == [] then [] else [DOT] + ext
  }

  function UpperAll(cvt: CodePage, s: seq<byte>): (u: seq<byte>)
    ensures |u| == |s|
  {
    seq(|s|, i requires 0 <= i < |s| => Upper(cvt, s[i]))
  }

  /** The directory form of a name. */
  function Packed(body: seq<byte>, ext: seq<byte>): Sfn
    requires |body| <= 8 && |ext| <= 3
  {
    body + seq(8 - |body|, _ => SPACE) + ext + seq(3 - |ext|, _ => SPACE)
  }

  lemma UpperTail(cvt: CodePage, s: seq<byte>)
    requires s != []
    ensures UpperAll(cvt, s)[0] == Upper(cvt, s[0]) && UpperAll(cvt, s[1..]) == UpperAll(cvt, s)[1..]
  {
  }

  lemma FieldStep(name: Sfn, i: nat, u: seq<byte>)
    requires u != [] && i + |u| <= 11
    ensures var name1 := name[i := u[0]];
            name1[..i + 1] + u[1..] + name1[i + |u|..] == name[..i] + u + name[i + |u|..]
  {
  }

  /** A field of the name is copied in upper case, one character at a time. */
  lemma {:induction false} ScanField(cvt: CodePage, path: seq<byte>, p: nat, s: seq<byte>, i: nat, ni: nat, name: Sfn)
    requires i + |s| <= ni <= 11 && NameText(s)
    requires p + |s| <= |path| && path[p..p + |s|] == s
    ensures var u := UpperAll(cvt, s);
            Scan(cvt, path, p, i, ni, name)
              == Scan(cvt, path, p + |s|, i + |s|, ni, name[..i] + u + name[i + |s|..])
    decreases |s|
  {
    hide Upper, UpperAll;
    var u := UpperAll(cvt, s);
    if s == [] {
      assert name[..i] + u + name[i..] == name;
    } else {
      var c := s[0];
      assert path[p] == path[p..p + |s|][0] == c;
      var name1 := name[i := Upper(cvt, c)];
      assert path[p + 1..p + |s|] == path[p..p + |s|][1..] == s[1..];
      assert NameChar(c);
      UpperTail(cvt, s);
      FieldStep(name, i, u);
      ScanField(cvt, path, p + 1, s[1..], i + 1, ni, name1);
    }
  }

  lemma ScanEnd(cvt: CodePage, path: seq<byte>, p: nat, i: nat, ni: nat, name: Sfn)
    requires i <= ni <= 11 && (At(path, p) <= SPACE || At(path, p) == SLASH)
    ensures Scan(cvt, path, p, i, ni, name) == Segment(name, p + 1, At(path, p))
  {
  }

  lemma ScanDot(cvt: CodePage, path: seq<byte>, p: nat, i: nat, name: Sfn)
    requires i <= 8 && p < |path| && path[p] == DOT
    ensures Scan(cvt, path, p, i, 8, name) == Scan(cvt, path, p + 1, 8, 11, name)
  {
  }

  /** The parts of a name in a path. */
  lemma TextParts(path: seq<byte>, p: nat, body: seq<byte>, ext: seq<byte>)
    requires var t := Text(body, ext); p + |t| <= |path| && path[p..p + |t|] == t
    ensures p + |body| <= |path| && path[p..p + |body|] == body
    ensures ext != [] ==>
              var q := p + |body|;
              q + 1 + |ext| <= |path| && path[q] == DOT && path[q + 1..q + 1 + |ext|] == ext
  {
    var t := Text(body, ext);
    assert path[p..p + |body|] == t[..|body|] == body;
    if ext != [] {
      var q := p + |body|;
      assert path[q] == t[|body|];
      assert path[q + 1..q + 1 + |ext|] == t[|body| + 1..] == ext;
    }
  }

  /** A field in upper case fills its place in a name. */
  lemma FillFields(name: Sfn, body: seq<byte>, ext: seq<byte>)
    requires |body| <= 8 && |ext| <= 3 && name == seq(11, _ => SPACE)
    ensures var n := name[..0] + body + name[|body|..]; n[..8] + ext + n[8 + |ext|..] == Packed(body, ext)
  {
  }

  /** A proper name in a path is cut out whole: in upper case, and with the path going on right behind it. */
  lemma NameInPath(cvt: CodePage, path: seq<byte>, p: nat, body: seq<byte>, ext: seq<byte>)
    requires Proper(body, ext)
    requires var t := Text(body, ext); p + |t| <= |path| && path[p..p + |t|] == t
    requires var stop := At(path, p + |Text(body, ext)|); stop <= SPACE || stop == SLASH
    ensures var q := p + |Text(body, ext)|;
            NameAt(cvt, path, p) == Segment(Packed(UpperAll(cvt, body), UpperAll(cvt, ext)), q + 1, At(path, q))
  {
    hide Scan, UpperAll, Packed;
    var blank: Sfn := seq(11, _ => SPACE);
    var ubody, uext, q := UpperAll(cvt, body), UpperAll(cvt, ext), p + |body|;
    TextParts(path, p, body, ext);
    ScanField(cvt, path, p, body, 0, 8, blank);
    var name := blank[..0] + ubody + blank[|body|..];
    FillFields(blank, ubody, uext);
    if ext == [] {
      assert name[..8] + uext + name[8..] == name;
      ScanEnd(cvt, path, q, |body|, 8, name);
    } else {
      ScanDot(cvt, path, q, |body|, name);
      ScanField(cvt, path, q + 1, ext, 8, 11, name);
      ScanEnd(cvt, path, q + 1 + |ext|, 8 + |ext|, 11, name[..8] + uext + name[8 + |ext|..]);
    }
  }

  lemma {:induction false} TrimPadded(s: seq<byte>, n: nat)
    requires SPACE !in s
    ensures Trim(s + seq(n, _ => SPACE)) == s
  {
    if s != [] {
      assert (s + seq(n, _ => SPACE))[1..] == s[1..] + seq(n, _ => SPACE);
      TrimPadded(s[1..], n);
    }
  }

  lemma {:induction false} UnescapeNothing(s: seq<byte>)
    requires 0x05 !in s
    ensures Unescape(s) == s
  {
    if s != [] {
      UnescapeNothing(s[1..]);
    }
  }

  /** Printing the directory form of a name gives back its text. */
  lemma PrintPacked(body: seq<byte>, ext: seq<byte>)
    requires |body| <= 8 && |ext| <= 3
    requires SPACE !in body && 0x05 !in body && SPACE !in ext
    ensures Print(Packed(body, ext)) == Text(body, ext)
  {
    var name := Packed(body, ext);
    assert name[..8] == body + seq(8 - |body|, _ => SPACE);
    assert name[8..] == ext + seq(3 - |ext|, _ => SPACE);
    TrimPadded(body, 8 - |body|);
    TrimPadded(ext, 3 - |ext|);
    UnescapeNothing(body);
    assert name[8] == name[8..][0];
  }

  /** Cutting a proper name from a path and printing it gives the upper-cased name. */
  lemma NameRoundTrip(cvt: CodePage, path: seq<byte>, p: nat, body: seq<byte>, ext: seq<byte>)
    requires Proper(body, ext)
    requires var t := Text(body, ext); p + |t| <= |path| && path[p..p + |t|] == t
    requires var stop := At(path, p + |Text(body, ext)|); stop <= SPACE || stop == SLASH
    ensures Print(NameAt(cvt, path, p).name) == Text(UpperAll(cvt, body), UpperAll(cvt, ext))
  {
    NameInPath(cvt, path, p, body, ext);
    UpperPlain(cvt, body);
    UpperPlain(cvt, ext);
    PrintPacked(UpperAll(cvt, body), UpperAll(cvt, ext));
  }

  lemma UpperPlain(cvt: CodePage, s: seq<byte>)
    requires NameText(s)
    ensures SPACE !in UpperAll(cvt, s) && 0x05 !in UpperAll(cvt, s)
  {
    forall i | 0 <= i < |s|
      ensures UpperAll(cvt, s)[i] > SPACE
    {
      assert NameChar(s[i]);
    }
  }

  /** Two proper names have the same directory form exactly when they are the same up to case. */
  lemma NamesDistinct(cvt: CodePage, body1: seq<byte>, ext1: seq<byte>, body2: seq<byte>, ext2: seq<byte>)
    requires Proper(body1, ext1) && Proper(body2, ext2)
    ensures NameAt(cvt, Text(body1, ext1), 0).name == NameAt(cvt, Text(body2, ext2), 0).name
       <==> UpperAll(cvt, body1) == UpperAll(cvt, body2) && UpperAll(cvt, ext1) == UpperAll(cvt, ext2)
  {
    NameInPath(cvt, Text(body1, ext1), 0, body1, ext1);
    NameInPath(cvt, Text(body2, ext2), 0, body2, ext2);
    UnpackPacked(UpperAll(cvt, body1), UpperAll(cvt, ext1));
    UnpackPacked(UpperAll(cvt, body2), UpperAll(cvt, ext2));
    UpperPlain(cvt, body1);
    UpperPlain(cvt, body2);
    UpperPlain(cvt, ext1);
    UpperPlain(cvt, ext2);
  }

  lemma UnpackPacked(body: seq<byte>, ext: seq<byte>)
    requires |body| <= 8 && |ext| <= 3
    ensures SPACE !in body ==> Trim(Packed(body, ext)[..8]) == body
    ensures SPACE !in ext ==> Trim(Packed(body, ext)[8..]) == ext
  {
    assert Packed(body, ext)[..8] == body + seq(8 - |body|, _ => SPACE);
    assert Packed(body, ext)[8..] == ext + seq(3 - |ext|, _ => SPACE);
    if SPACE !in body {
      TrimPadded(body, 8 - |body|);
    }
    if SPACE !in ext {
      TrimPadded(ext, 3 - |ext|);
    }
  }
}
