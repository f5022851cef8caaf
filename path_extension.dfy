/** `pathExtensionSwitch`: replacing the extension of a NUL-terminated file
    name in a character buffer of known size, in place. The replacement
    point is the last '.' of the name when it lies after the first ':', '\'
    or '/', or when the name holds none of these; otherwise the extension is
    appended. Nothing is written when the new extension and its terminator
    would not fit. The rule as meant, with the last separator in place of
    the first, is FileExtTarget at the end of this module. */
module PathExtension {
  import opened Wrappers
  import opened Text

  const NUL: char := '\0'

  predicate IsSep(c: char) {
    c == ':' || c == '\\' || c == '/'
  }

  /** `strlen`: the index of the first NUL. */
  function StrLen(s: seq<char>): (n: nat)
    requires NUL in s
    ensures n < |s| && s[n] == NUL
    ensures forall i :: 0 <= i < n ==> s[i] != NUL
  {
    if s[0] == NUL then 0 else 1 + StrLen(s[1..])
  }

  /** The C string held at the start of a buffer, without its terminator. */
  function CStr(s: seq<char>): (r: string)
    requires NUL in s
    ensures NulFree(r) && |r| < |s| && r == s[..|r|] && s[|r|] == NUL
  {
    s[..StrLen(s)]
  }

  /** `strrchr(name, '.')`: the index of the last '.'. */
  function LastDot(name: string): (r: Option<nat>)
    ensures r.Some? ==> r.value < |name| && name[r.value] == '.' &&
                        forall k :: r.value < k < |name| ==> name[k] != '.'
    ensures r.None? ==> forall k :: 0 <= k < |name| ==> name[k] != '.'
  {
    if name == [] then None
    else if name[|name| - 1] == '.' then Some(|name| - 1)
    else LastDot(name[..|name| - 1])
  }

  /** `strpbrk(name, ":\\/")`: the index of the first separator. */
  function FirstSep(name: string): (r: Option<nat>)
    ensures r.Some? ==> r.value < |name| && IsSep(name[r.value]) &&
                        forall k :: 0 <= k < r.value ==> !IsSep(name[k])
    ensures r.None? ==> forall k :: 0 <= k < |name| ==> !IsSep(name[k])
  {
    if name == [] then None
    else if IsSep(name[0]) then Some(0)
    else match FirstSep(name[1..])
      case None => None
      case Some(i) => Some(i + 1)
  }

  /** The replacement point: the last dot when there is one beyond the first
      separator (or no separator at all), else the end of the name. */
  function ExtTarget(name: string): (t: nat)
    ensures t <= |name|
    ensures t < |name| ==>
      && name[t] == '.' && (forall k :: t < k < |name| ==> name[k] != '.')
      && ((forall k :: 0 <= k < |name| ==> !IsSep(name[k])) || exists k :: 0 <= k < t && IsSep(name[k]))
    ensures t == |name| ==> forall d :: 0 <= d < |name| && name[d] == '.' ==>
      (exists k :: d < k < |name| && name[k] == '.') ||
      ((forall k :: 0 <= k < d ==> !IsSep(name[k])) && exists k :: d < k < |name| && IsSep(name[k]))
  {
    var dot := LastDot(name);
    var sep := FirstSep(name);
    // with no separator `mintarget` is NULL, which no dot lies at or before
    if dot.None? || (sep.Some? && dot.value <= sep.value) then |name| else dot.value
  }

  /** The buffer after the switch: unchanged when `target + extlen + 1`
      reaches `fnbufLen`, else the new extension and a terminator written at
      the target, the rest of the buffer untouched. */
  function Switched(buf: seq<char>, newext: string, fnbufLen: nat): (r: seq<char>)
    requires NUL in buf && fnbufLen <= |buf|
    ensures |r| == |buf|
  {
    var t := ExtTarget(CStr(buf));
    if t + |newext| + 1 >= fnbufLen then buf
    else buf[..t] + newext + [NUL] + buf[t + |newext| + 1..]
  }

  /** What `strncpy(dst, src, n)` writes: the characters of `src`, then NULs
      up to `n`. */
  function StrNCpyImage(src: string, n: nat): (r: seq<char>)
    ensures |r| == n
    ensures forall i :: 0 <= i < n ==> r[i] == if i < |src| then src[i] else NUL
  {
    if n == 0 then []
    else StrNCpyImage(src, n - 1) + [if n - 1 < |src| then src[n - 1] else NUL]
  }

  /** `strncpy` into `dst` at offset `at`. */
  method StrNCopy(dst: array<char>, at: nat, src: string, n: nat)
    requires NulFree(src) && at + n <= dst.Length
    modifies dst
    ensures dst[..] == old(dst[..at]) + StrNCpyImage(src, n) + old(dst[at + n..])
  {
    ghost var orig := dst[..];
    var i := 0;
    while i < n
      invariant 0 <= i <= n
      invariant dst[..] == orig[..at] + StrNCpyImage(src, i) + orig[at + i..]
    {
      StrNCopyStep(dst[..], orig, at, src, i, n);
      dst[at + i] := if i < |src| then src[i] else NUL;
      i := i + 1;
    }
  }

  /** One step of the copy: writing the next character of the image
      extends the copied part by one. */
  lemma StrNCopyStep(before: seq<char>, orig: seq<char>, at: nat, src: string, i: nat, n: nat)
    requires i < n && at + n <= |orig|
    requires before == orig[..at] + StrNCpyImage(src, i) + orig[at + i..]
    ensures before[at + i := if i < |src| then src[i] else NUL] ==
      orig[..at] + StrNCpyImage(src, i + 1) + orig[at + i + 1..]
  {
    var c := if i < |src| then src[i] else NUL;
    assert StrNCpyImage(src, i + 1) == StrNCpyImage(src, i) + [c];
    assert orig[at + i..][1..] == orig[at + i + 1..];
    SpliceStep(before, orig[..at], StrNCpyImage(src, i), orig[at + i..], c);
  }

  /** Overwriting the first element after `a + m` extends `m` by it. */
  lemma SpliceStep(s: seq<char>, a: seq<char>, m: seq<char>, b: seq<char>, c: char)
    requires s == a + m + b && |b| > 0
    ensures s[|a| + |m| := c] == a + (m + [c]) + b[1..]
  {
  }

  /** The host's `qstrncpy(dst, src, n)`: at most `n - 1` characters of
      `src`, then always a terminator. */
  method QStrNCopy(dst: array<char>, at: nat, src: string, n: nat)
    requires NulFree(src) && 0 < n && at + n <= dst.Length
    modifies dst
    ensures dst[..] == old(dst[..at]) + Take(src, n - 1) + [NUL] + old(dst[at + |Take(src, n - 1)| + 1..])
  {
    var m := if |src| < n - 1 then |src| else n - 1;
    var i := 0;
    while i < m
      invariant 0 <= i <= m
      invariant forall k :: 0 <= k < at ==> dst[k] == old(dst[k])
      invariant forall k :: at + i <= k < dst.Length ==> dst[k] == old(dst[k])
      invariant forall k :: 0 <= k < i ==> dst[at + k] == src[k]
    {
      dst[at + i] := src[i];
      i := i + 1;
    }
    dst[at + m] := NUL;
    assert Take(src, n - 1) == src[..m];
    assert dst[..] == old(dst[..at]) + Take(src, n - 1) + [NUL] + old(dst[at + m + 1..]);
  }

  /** With one slot more than the source has characters, both copies write
      the source and one terminator. */
  lemma CopiesAgree(src: string)
    ensures StrNCpyImage(src, |src| + 1) == src + [NUL] == Take(src, |src|) + [NUL]
  {
  }

  /** `pathExtensionSwitch` of src/stdafx.cpp; trunk/src/stdafx.cpp holds the
      same function. */
  method PathExtensionSwitch(fname: array<char>, newext: string, fnbufLen: nat)
    requires NUL in fname[..] && fnbufLen <= fname.Length && NulFree(newext)
    modifies fname
    ensures fname[..] == Switched(old(fname[..]), newext, fnbufLen)
  {
    var name := CStr(fname[..]);
    var target := ExtTarget(name);
    var extlen := |newext|;
    if target + extlen + 1 >= fnbufLen {
      return;
    }
    StrNCopy(fname, target, newext, extlen + 1);
    CopiesAgree(newext);
  }

  /** The static copy in the older plugin's main file, which writes with
      `qstrncpy`. */
  method PathExtensionSwitchStatic(fname: array<char>, newext: string, fnbufLen: nat)
    requires NUL in fname[..] && fnbufLen <= fname.Length && NulFree(newext)
    modifies fname
    ensures fname[..] == Switched(old(fname[..]), newext, fnbufLen)
  {
    var name := CStr(fname[..]);
    var target := ExtTarget(name);
    var extlen := |newext|;
    if target + extlen + 1 >= fnbufLen {
      return;
    }
    QStrNCopy(fname, target, newext, extlen + 1);
    CopiesAgree(newext);
  }

  // ---------------------------------------------------------------------
  // Properties of the switch

  /** A NUL after a NUL-free stretch ends the string there. */
  lemma StrLenAt(s: seq<char>, n: nat)
    requires n < |s| && s[n] == NUL && forall i :: 0 <= i < n ==> s[i] != NUL
    ensures StrLen(s) == n
  {
  }

  /** When it fits, the new name is the old one up to the target followed by
      the new extension; everything before the target, and everything after
      the new terminator, is as it was. */
  lemma SwitchWrites(buf: seq<char>, newext: string, fnbufLen: nat)
    requires NUL in buf && fnbufLen <= |buf| && NulFree(newext)
    requires ExtTarget(CStr(buf)) + |newext| + 1 < fnbufLen
    ensures var t := ExtTarget(CStr(buf)); var r := Switched(buf, newext, fnbufLen);
      && NUL in r && CStr(r) == CStr(buf)[..t] + newext
      && r[..t] == buf[..t]
      && r[t + |newext| + 1..] == buf[t + |newext| + 1..]
  {
    var name := CStr(buf);
    var t := ExtTarget(name);
    assert buf[..t] == name[..t];
    CStrOfWrite(name[..t], newext, buf[t + |newext| + 1..]);
  }

  /** A NUL-free text, a NUL-free extension and a terminator make the C
      string of the two. */
  lemma CStrOfWrite(p: string, e: string, rest: seq<char>)
    requires NulFree(p) && NulFree(e)
    ensures NUL in p + e + [NUL] + rest && CStr(p + e + [NUL] + rest) == p + e
  {
    var s := p + e + [NUL] + rest;
    assert s[|p| + |e|] == NUL;
    StrLenAt(s, |p| + |e|);
    assert s[..|p| + |e|] == p + e;
  }

  /** A name with no dot at all gets the extension appended. */
  lemma NoDotAppends(buf: seq<char>, newext: string, fnbufLen: nat)
    requires NUL in buf && fnbufLen <= |buf| && NulFree(newext)
    requires forall k :: 0 <= k < |CStr(buf)| ==> CStr(buf)[k] != '.'
    requires |CStr(buf)| + |newext| + 1 < fnbufLen
    ensures var r := Switched(buf, newext, fnbufLen); NUL in r && CStr(r) == CStr(buf) + newext
  {
    var name := CStr(buf);
    assert ExtTarget(name) == |name|;
    assert name[..|name|] == name;
    SwitchWrites(buf, newext, fnbufLen);
  }

  /** Without room, the buffer is left exactly as it was. */
  lemma NoRoomUnchanged(buf: seq<char>, newext: string, fnbufLen: nat)
    requires NUL in buf && fnbufLen <= |buf|
    requires ExtTarget(CStr(buf)) + |newext| + 1 >= fnbufLen
    ensures Switched(buf, newext, fnbufLen) == buf
  {
  }

  /** The last '.' of a name ending in an extension that holds no other dot
      is the extension's own. */
  lemma LastDotOfExtension(p: string, ext: string)
    requires |ext| > 0 && ext[0] == '.' && forall k :: 0 < k < |ext| ==> ext[k] != '.'
    ensures LastDot(p + ext) == Some(|p|)
  {
    var s := p + ext;
    assert s[|p|] == '.';
    assert forall k :: |p| < k < |s| ==> s[k] == ext[k - |p|];
  }

  /** An extension free of separators does not change where the first one
      is. */
  lemma FirstSepOfExtension(p: string, ext: string)
    requires forall k :: 0 <= k < |ext| ==> !IsSep(ext[k])
    ensures FirstSep(p + ext) == FirstSep(p)
  {
    var s := p + ext;
    assert forall k :: 0 <= k < |p| ==> s[k] == p[k];
    assert forall k :: |p| <= k < |s| ==> s[k] == ext[k - |p|];
  }

  /** Cutting a name at or after its first separator keeps that separator
      first, and a name without separators has none in any prefix. */
  lemma FirstSepOfPrefix(name: string, t: nat)
    requires t <= |name|
    requires FirstSep(name).Some? ==> FirstSep(name).value < t
    ensures FirstSep(name[..t]) == FirstSep(name)
  {
    var p := name[..t];
    assert forall k :: 0 <= k < t ==> p[k] == name[k];
  }

  /** An extension that is a '.' followed by characters that are neither
      dots nor separators. */
  predicate PlainExtension(ext: string) {
    |ext| > 0 && ext[0] == '.' && NulFree(ext) &&
    forall k :: 0 < k < |ext| ==> ext[k] != '.' && !IsSep(ext[k])
  }

  /** Switching twice to the same plain extension is switching once. */
  lemma SwitchIdempotent(buf: seq<char>, newext: string, fnbufLen: nat)
    requires NUL in buf && fnbufLen <= |buf| && PlainExtension(newext)
    ensures var once := Switched(buf, newext, fnbufLen);
      NUL in once && Switched(once, newext, fnbufLen) == once
  {
    var name := CStr(buf);
    var t := ExtTarget(name);
    var once := Switched(buf, newext, fnbufLen);
    if t + |newext| + 1 < fnbufLen {
      SwitchWrites(buf, newext, fnbufLen);
      TargetAfterSwitch(name, newext);
      assert once[t..t + |newext| + 1] == newext + [NUL];
      RewriteInPlace(once, t, newext + [NUL]);
    }
  }

  /** After a switch the target of the new name is where the extension was
      written. */
  lemma TargetAfterSwitch(name: string, newext: string)
    requires PlainExtension(newext)
    ensures ExtTarget(name) <= |name| && ExtTarget(name[..ExtTarget(name)] + newext) == ExtTarget(name)
  {
    var t := ExtTarget(name);
    var p := name[..t];
    LastDotOfExtension(p, newext);
    assert forall k :: 0 <= k < |newext| ==> !IsSep(newext[k]);
    FirstSepOfExtension(p, newext);
    FirstSepOfPrefix(name, t);
  }

  /** Writing what a slice already holds leaves the sequence as it is. */
  lemma RewriteInPlace(s: seq<char>, t: nat, w: seq<char>)
    requires t + |w| <= |s| && s[t..t + |w|] == w
    ensures s == s[..t] + w + s[t + |w|..]
  {
  }

  /** The rule looks at the first separator, not the last: a dot in a
      directory name after a drive letter is taken, and the rest of the path
      is dropped. */
  lemma FirstSeparatorExample(pad: seq<char>)
    requires |pad| >= 5
    ensures var buf := Sample + [NUL] + pad;
      var r := Switched(buf, ".map", |buf|);
      NUL in r && CStr(r) == "C:\\dir" + ".map"
  {
    SampleTargets();
    SwitchOfPadded(Sample, pad, ".map");
    assert Sample[..6] == "C:\\dir";
  }

  /** A name written at the start of a buffer, switched with room to
      spare. */
  lemma SwitchOfPadded(name: string, pad: seq<char>, newext: string)
    requires NulFree(name) && NulFree(newext)
    requires |newext| < |pad|
    ensures var buf := name + [NUL] + pad; var r := Switched(buf, newext, |buf|);
      NUL in r && CStr(r) == name[..ExtTarget(name)] + newext
  {
    CStrPadded(name, pad);
    SwitchWrites(name + [NUL] + pad, newext, |name + [NUL] + pad|);
  }

  /** A name with a dot in a directory and none in the file name. */
  const Sample: string := "C:\\dir.x\\file"

  /** Where the two rules put the extension of Sample. */
  lemma SampleTargets()
    ensures ExtTarget(Sample) == 6 && FileExtTarget(Sample) == |Sample|
  {
    var name := Sample;
    assert name[6] == '.' && forall k :: 6 < k < |name| ==> name[k] != '.';
    assert LastDot(name) == Some(6);
    assert name[1] == ':' && !IsSep(name[0]);
    assert FirstSep(name) == Some(1);
    assert name[8] == '\\' && forall k :: 8 < k < |name| ==> !IsSep(name[k]);
    assert LastSep(name) == Some(8);
  }

  /** A NUL-free name followed by a terminator is the buffer's C string. */
  lemma CStrPadded(name: string, pad: seq<char>)
    requires NulFree(name)
    ensures NUL in name + [NUL] + pad && CStr(name + [NUL] + pad) == name
  {
    var buf := name + [NUL] + pad;
    assert buf[|name|] == NUL;
    StrLenAt(buf, |name|);
    assert buf[..|name|] == name;
  }

  // ---------------------------------------------------------------------
  // The rule with the last separator

  /** The index of the last ':', '\' or '/'. */
  function LastSep(name: string): (r: Option<nat>)
    ensures r.Some? ==> r.value < |name| && IsSep(name[r.value]) &&
                        forall k :: r.value < k < |name| ==> !IsSep(name[k])
    ensures r.None? ==> forall k :: 0 <= k < |name| ==> !IsSep(name[k])
  {
    if name == [] then None
    else if IsSep(name[|name| - 1]) then Some(|name| - 1)
    else LastSep(name[..|name| - 1])
  }

  /** The replacement point the comparison with `mintarget` is meant to
      give: the last dot when it lies in the last path component, else the
      end of the name. Nothing from the target on is a separator, so the
      directory part is always kept. */
  function FileExtTarget(name: string): (t: nat)
    ensures t <= |name|
    ensures forall k :: t <= k < |name| ==> !IsSep(name[k])
    ensures t < |name| ==> name[t] == '.' && forall k :: t < k < |name| ==> name[k] != '.'
    ensures t == |name| ==> forall d :: 0 <= d < |name| && name[d] == '.' ==>
      exists k :: d < k < |name| && (name[k] == '.' || IsSep(name[k]))
  {
    var dot := LastDot(name);
    var sep := LastSep(name);
    if dot.None? || (sep.Some? && dot.value <= sep.value) then |name| else dot.value
  }

  /** The buffer after a switch that uses FileExtTarget. */
  function FileSwitched(buf: seq<char>, newext: string, fnbufLen: nat): (r: seq<char>)
    requires NUL in buf && fnbufLen <= |buf|
    ensures |r| == |buf|
  {
    var t := FileExtTarget(CStr(buf));
    if t + |newext| + 1 >= fnbufLen then buf
    else buf[..t] + newext + [NUL] + buf[t + |newext| + 1..]
  }

  /** With the last separator, a switch that fits keeps every separator of
      the name, and with it the whole directory part, and replaces only the
      extension of the file name itself. */
  lemma FileSwitchKeepsDirectory(buf: seq<char>, newext: string, fnbufLen: nat)
    requires NUL in buf && fnbufLen <= |buf| && NulFree(newext)
    requires FileExtTarget(CStr(buf)) + |newext| + 1 < fnbufLen
    ensures var name := CStr(buf); var t := FileExtTarget(name); var r := FileSwitched(buf, newext, fnbufLen);
      && NUL in r && CStr(r) == name[..t] + newext
      && forall k :: 0 <= k < |name| && IsSep(name[k]) ==> k < t
  {
    var name := CStr(buf);
    var t := FileExtTarget(name);
    assert buf[..t] == name[..t];
    CStrOfWrite(name[..t], newext, buf[t + |newext| + 1..]);
  }

  /** On a name with at most one separator the two rules agree. */
  lemma TargetsAgreeOnOneSeparator(name: string)
    requires FirstSep(name) == LastSep(name)
    ensures ExtTarget(name) == FileExtTarget(name)
  {
  }

  /** On the name of FirstSeparatorExample the rule with the last separator
      appends the extension to the file name. */
  lemma LastSeparatorExample(pad: seq<char>)
    requires |pad| >= 5
    ensures var buf := Sample + [NUL] + pad;
      var r := FileSwitched(buf, ".map", |buf|);
      NUL in r && CStr(r) == Sample + ".map"
  {
    SampleTargets();
    FileSwitchOfPadded(Sample, pad, ".map");
  }

  /** The same for the rule with the last separator. */
  lemma FileSwitchOfPadded(name: string, pad: seq<char>, newext: string)
    requires NulFree(name) && NulFree(newext)
    requires |newext| < |pad|
    ensures var buf := name + [NUL] + pad; var r := FileSwitched(buf, newext, |buf|);
      && NUL in r && CStr(r) == name[..FileExtTarget(name)] + newext
      && (FileExtTarget(name) == |name| ==> CStr(r) == name + newext)
  {
    assert name[..|name|] == name;
    CStrPadded(name, pad);
    FileSwitchKeepsDirectory(name + [NUL] + pad, newext, |name + [NUL] + pad|);
  }
}
