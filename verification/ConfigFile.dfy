/** The proxy's configuration file read and written with C string buffers. */
module ConfigFile {
  import opened Bytes
  import opened Ini

  /** The characters before the terminator. */
  ghost function CStr(a: seq<char>): (s: string)
    requires '\0' in a
    ensures |s| < |a| && s == a[..|s|] && a[|s|] == '\0'
    ensures forall k :: 0 <= k < |s| ==> s[k] == a[k] && a[k] != '\0'
  {
    var i := IndexOf(a, '\0');
    assert forall k :: 0 <= k < i ==> a[k] == a[..i][k] && a[..i][k] in a[..i];
    a[..i]
  }

  /** A buffer whose first terminator is at `n`. */
  lemma CStrIs(a: seq<char>, n: nat)
    requires n < |a| && a[n] == '\0' && forall k :: 0 <= k < n ==> a[k] != '\0'
    ensures '\0' in a && CStr(a) == a[..n]
  {
    IndexIs(a, '\0', n);
  }

  method StrLen(s: array<char>, from: nat) returns (n: nat)
    requires from < s.Length && '\0' in s[from..]
    ensures n == |CStr(s[from..])|
  {
    n := 0;
    ghost var c := CStr(s[from..]);
    while s[from + n] != '\0'
      invariant n <= |c|
      decreases |c| - n
    {
      n := n + 1;
    }
    assert s[from..][n] == '\0';
  }

  /** The end of `trim_whitespace`: trailing blanks are overwritten, the first character never. */
  method CutTail(s: array<char>, start: nat, len: nat) returns (kept: nat)
    requires 1 <= len && start + len < s.Length && s[start + len] == '\0'
    requires forall k :: start <= k < start + len ==> s[k] != '\0'
    modifies s
    ensures kept <= len && s[start + kept] == '\0'
    ensures s[start..start + kept] == TrimRight(old(s[start..start + len]))
    ensures forall k :: start <= k < start + kept ==> s[k] != '\0'
  {
    hide TrimRight, TailBlank;
    ghost var orig := s[..];
    ghost var body := orig[start..start + len];
    assert s[start..start + len] == body && body[..len] == body;
    var end := start + len - 1;
    while end > start && TailBlank(s[end])
      invariant start <= end < start + len && s[end + 1] == '\0'
      invariant forall i :: start <= i <= end ==> s[i] == orig[i]
      invariant TrimRight(body) == TrimRight(body[..end + 1 - start])
    {
      assert body[end - start] == orig[end] == s[end];
      DropLast(body, end + 1 - start);
      s[end] := '\0';
      end := end - 1;
    }
    kept := end + 1 - start;
    NothingToDrop(body[..kept]);
    assert s[start..start + kept] == body[..kept];
  }

  lemma DropLast(body: string, n: nat)
    requires 2 <= n <= |body| && TailBlank(body[n - 1])
    ensures TrimRight(body[..n]) == TrimRight(body[..n - 1])
  {
    assert body[..n][..n - 1] == body[..n - 1];
  }

  lemma NothingToDrop(s: string)
    requires |s| == 1 || (|s| >= 2 && !TailBlank(s[|s| - 1]))
    ensures TrimRight(s) == s
  {}

  /** The start of `trim_whitespace`. */
  method SkipBlanks(s: array<char>) returns (start: nat)
    requires '\0' in s[..]
    ensures start <= |CStr(s[..])| && TrimLeft(CStr(s[..])) == CStr(s[..])[start..]
  {
    ghost var c := CStr(s[..]);
    start := 0;
    assert c[0..] == c;
    while s[start] == ' ' || s[start] == '\t'
      invariant start <= |c| && TrimLeft(c) == TrimLeft(c[start..])
      decreases |c| - start
    {
      assert c[start..][1..] == c[start + 1..];
      start := start + 1;
    }
  }

  /** `trim_whitespace`, in place. */
  method TrimWhitespace(s: array<char>)
    requires '\0' in s[..]
    modifies s
    ensures '\0' in s[..] && CStr(s[..]) == Trim(old(CStr(s[..])))
  {
    hide TrimLeft, TrimRight, IndexOf;
    ghost var c := CStr(s[..]);
    var start := SkipBlanks(s);
    ghost var n := |c| - start;
    CStrIs(s[start..], n);
    assert s[start..][..n] == c[start..];
    var len := StrLen(s, start);
    if len == 0 {
      s[0] := '\0';
      CStrIs(s[..], 0);
      assert s[..][..0] == TrimRight("") by { NothingToTrim(); }
      return;
    }
    assert s[start..start + len] == c[start..];
    var kept := CutTail(s, start, len);
    MoveDown(s, start, kept);
  }

  lemma NothingToTrim()
    ensures TrimRight("") == ""
  {}

  /** The final `memmove`. */
  method MoveDown(s: array<char>, start: nat, kept: nat)
    requires start + kept < s.Length && s[start + kept] == '\0'
    requires forall k :: start <= k < start + kept ==> s[k] != '\0'
    modifies s
    ensures '\0' in s[..] && CStr(s[..]) == old(s[start..start + kept])
  {
    ghost var t := s[start..start + kept];
    if start != 0 {
      forall i | 0 <= i <= kept {
        s[i] := s[start + i];
      }
    }
    CStrIs(s[..], kept);
    assert s[..][..kept] == t;
  }

  /** `strncpy` into a buffer that is then terminated at its end. */
  method StrNCpy(dst: array<char>, src: array<char>, from: nat)
    requires dst != src && dst.Length >= 1 && from < src.Length && '\0' in src[from..]
    modifies dst
    ensures '\0' in dst[..] && CStr(dst[..]) == Truncated(CStr(src[from..]), dst.Length - 1)
  {
    ghost var c := CStr(src[from..]);
    var i := 0;
    while i < dst.Length - 1 && src[from + i] != '\0'
      invariant i <= |c| && i <= dst.Length - 1
      invariant forall k :: 0 <= k < i ==> dst[k] == c[k]
      decreases dst.Length - i
    {
      assert src[from..][i] != '\0';
      dst[i] := src[from + i];
      i := i + 1;
    }
    assert src[from..][i] == src[from + i];
    dst[i] := '\0';
    CStrIs(dst[..], i);
    assert dst[..][..i] == c[..i];
    assert i == |c| ==> c[..i] == c;
  }

  class Store {
    var config: Config

    constructor ()
      ensures config == DEFAULTS
    {
      config := DEFAULTS;
    }

    /** One line of `config_load_file`, in its three buffers. */
    method LoadLine(chunk: string)
      requires |chunk| < LINE_SIZE && '\0' !in chunk
      modifies this
      ensures config == Ini.LoadLine(old(config), chunk)
    {
      hide Set, Trim, IndexOf;
      var line := LineBuffer(chunk);
      TrimWhitespace(line);
      if line[0] == '#' || line[0] == ';' || line[0] == '\0' {
        return;
      }
      if line[0] == '[' {
        return;
      }
      var eq := FindEquals(line);
      if eq < 0 {
        return;
      }
      var k, v := SplitLine(line, eq);
      config := Set(config, k, v);
    }

    /** `config_load_file`; without a file nothing changes. */
    method LoadFile(file: Option<string>) returns (ret: int)
      requires file.Some? ==> '\0' !in file.value
      modifies this
      ensures file == None ==> ret == -1 && config == old(config)
      ensures file.Some? ==> ret == 0 && config == Load(old(config), file.value)
    {
      hide Ini.LoadLine, ChunkLength;
      if file == None {
        return -1;
      }
      var text := file.value;
      while text != ""
        invariant '\0' !in text
        invariant Load(config, text) == Load(old(config), file.value)
        decreases |text|
      {
        var n := ChunkLength(text);
        LoadLine(text[..n]);
        text := text[n..];
      }
      ret := 0;
    }
  }

  /** What `fgets` leaves in the line buffer. */
  method LineBuffer(chunk: string) returns (line: array<char>)
    requires |chunk| < LINE_SIZE && '\0' !in chunk
    ensures fresh(line) && line.Length == LINE_SIZE && '\0' in line[..] && CStr(line[..]) == chunk
  {
    line := new char[LINE_SIZE](i => if 0 <= i < |chunk| then chunk[i] else '\0');
    assert forall k :: 0 <= k < |chunk| ==> line[k] == chunk[k] && chunk[k] in chunk;
    CStrIs(line[..], |chunk|);
    assert line[..][..|chunk|] == chunk;
  }

  /** With '=' overwritten by a terminator the line holds two strings. */
  lemma SplitStrings(a: seq<char>, eq: nat)
    requires '\0' in a && eq < |CStr(a)|
    ensures var b := a[eq := '\0'];
            && '\0' in b[0..] && CStr(b[0..]) == CStr(a)[..eq]
            && '\0' in b[eq + 1..] && CStr(b[eq + 1..]) == CStr(a)[eq + 1..]
  {
    hide IndexOf, CStr;
    var t, b := CStr(a), a[eq := '\0'];
    assert forall k :: 0 <= k < |t| ==> t[k] == a[k] && a[k] != '\0';
    CStrIs(b[0..], eq);
    assert b[0..][..eq] == t[..eq];
    CStrIs(b[eq + 1..], |t| - eq - 1);
    assert b[eq + 1..][..|t| - eq - 1] == t[eq + 1..];
  }

  /** The two sides of '=', copied into their buffers and trimmed. */
  method SplitLine(line: array<char>, eq: nat) returns (k: string, v: string)
    requires '\0' in line[..] && eq < |CStr(line[..])|
    modifies line
    ensures var t := old(CStr(line[..]));
            k == Trim(Truncated(t[..eq], KEY_SIZE - 1)) && v == Trim(Truncated(t[eq + 1..], VALUE_SIZE - 1))
  {
    hide Trim, Truncated, IndexOf, CStr;
    SplitStrings(line[..], eq);
    ghost var a := line[..];
    var key, value := new char[KEY_SIZE], new char[VALUE_SIZE];
    line[eq] := '\0';
    assert line[..] == a[eq := '\0'];
    assert line[0..] == a[eq := '\0'][0..] && line[eq + 1..] == a[eq := '\0'][eq + 1..];
    StrNCpy(key, line, 0);
    StrNCpy(value, line, eq + 1);
    TrimWhitespace(key);
    TrimWhitespace(value);
    k := CStringOf(key);
    v := CStringOf(value);
  }

  /** A terminated buffer read as a string value. */
  method CStringOf(a: array<char>) returns (s: string)
    requires '\0' in a[..]
    ensures s == CStr(a[..])
  {
    assert a[0..] == a[..];
    var n := StrLen(a, 0);
    s := a[..n];
  }

  /** `strchr(line, '=')`, -1 for NULL. */
  method FindEquals(line: array<char>) returns (i: int)
    requires '\0' in line[..]
    ensures var t := CStr(line[..]);
            if IndexOf(t, '=') == |t| then i == -1 else i == IndexOf(t, '=')
  {
    ghost var t := CStr(line[..]);
    i := 0;
    while line[i] != '\0'
      invariant 0 <= i <= |t|
      invariant forall k :: 0 <= k < i ==> t[k] != '='
      decreases |t| - i
    {
      assert line[..][i] != '\0';
      if line[i] == '=' {
        IndexIs(t, '=', i);
        return;
      }
      i := i + 1;
    }
    assert line[..][i] == '\0';
    ghost var none := IndexOf(t, '=');
    i := -1;
  }
}
