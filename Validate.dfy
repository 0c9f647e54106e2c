/**
  The name and extension checks of the command line
  (internal/validate/validate.go): Kubernetes namespace names and the
  extension of a file path. Go measures strings in UTF-8 bytes; the model
  keeps strings as characters and counts their bytes with `ByteLength`.
 */
module Validate {
  import opened Wrappers
  import opened Strings

  // ---------------------------------------------------------------------
  // Lengths in bytes
  // ---------------------------------------------------------------------

  /** The number of bytes UTF-8 spends on `c`. */
  function Utf8Width(c: char): nat
  {
    if c as int < 0x80 then 1
    else if c as int < 0x800 then 2
    else if c as int < 0x1_0000 then 3
    else 4
  }

  /** `len(s)`: the length of `s` in UTF-8 bytes. */
  function ByteLength(s: string): nat
  {
    if |s| == 0 then 0 else ByteLength(s[..|s| - 1]) + Utf8Width(s[|s| - 1])
  }

  /** A string takes at least one byte per character, and exactly one per
      character when all its characters are ASCII. */
  lemma {:induction false} ByteLengthBounds(s: string)
    ensures |s| <= ByteLength(s)
    ensures (forall i | 0 <= i < |s| :: s[i] as int < 0x80) ==> ByteLength(s) == |s|
  {
    if |s| > 0 {
      ByteLengthBounds(s[..|s| - 1]);
    }
  }

  // ---------------------------------------------------------------------
  // Kubernetes names
  // ---------------------------------------------------------------------

  /** `isAlphanumeric`: a lower-case ASCII letter or a decimal digit. */
  predicate IsAlphanumeric(c: char)
  {
    'a' <= c <= 'z' || '0' <= c <= '9'
  }

  /** A character a name may hold anywhere. */
  predicate IsNameChar(c: char)
  {
    IsAlphanumeric(c) || c == '-'
  }

  /** `isValidK8sName`: one to 253 bytes, alphanumeric at both ends, and
      only lower-case letters, digits and hyphens. The first test reads the
      first byte, which for a character beyond ASCII is a lead byte of 0x80
      or above and so fails like the character itself. */
  predicate IsValidK8sName(name: string)
  {
    0 < ByteLength(name) <= 253
    && IsAlphanumeric(name[0]) && IsAlphanumeric(name[|name| - 1])
    && forall i | 0 <= i < |name| :: IsNameChar(name[i])
  }

  /** The names `isValidK8sName` accepts are the non-empty strings of at
      most 253 characters over `[a-z0-9-]` that begin and end with
      `[a-z0-9]`: every such character is one byte. */
  lemma ValidK8sName(name: string)
    ensures IsValidK8sName(name) <==>
      0 < |name| <= 253 && IsAlphanumeric(name[0]) && IsAlphanumeric(name[|name| - 1])
      && forall i | 0 <= i < |name| :: IsNameChar(name[i])
  {
    ByteLengthBounds(name);
  }

  function TooLongMessage(ns: string): string
  {
    "namespace name too long (max 63 characters): " + ns
  }

  function InvalidNameMessage(ns: string): string
  {
    "invalid namespace name: " + ns + " (must be lowercase alphanumeric with hyphens)"
  }

  /** `Namespace`: none is fine; otherwise at most 63 bytes and a valid
      name, each failure with its own message. */
  function Namespace(ns: string): Option<string>
  {
    if ns == "" then None
    else if ByteLength(ns) > 63 then Some(TooLongMessage(ns))
    else if !IsValidK8sName(ns) then Some(InvalidNameMessage(ns))
    else None
  }

  /** A DNS label as Kubernetes names namespaces: one to 63 characters
      over `[a-z0-9-]`, alphanumeric at both ends. */
  predicate IsDnsLabel(ns: string)
  {
    0 < |ns| <= 63 && IsAlphanumeric(ns[0]) && IsAlphanumeric(ns[|ns| - 1])
    && forall i | 0 <= i < |ns| :: IsNameChar(ns[i])
  }

  /** `Namespace` accepts exactly the empty namespace (all namespaces) and
      the DNS labels. */
  lemma NamespaceAccepted(ns: string)
    ensures Namespace(ns).None? <==> ns == "" || IsDnsLabel(ns)
  {
    ByteLengthBounds(ns);
  }

  /** A namespace over 63 bytes is refused as too long, before its
      characters are looked at. */
  lemma NamespaceTooLong(ns: string)
    requires ByteLength(ns) > 63
    ensures Namespace(ns) == Some(TooLongMessage(ns))
  {
    assert ns != "";
  }

  /** A namespace of the right length with a character outside the name
      alphabet, or a hyphen at one end, is refused as invalid. */
  lemma NamespaceInvalid(ns: string, i: nat)
    requires 0 < ByteLength(ns) <= 63 && i < |ns|
    requires !IsNameChar(ns[i]) || ((i == 0 || i == |ns| - 1) && ns[i] == '-')
    ensures Namespace(ns) == Some(InvalidNameMessage(ns))
  {
    assert ns != "";
    if IsNameChar(ns[i]) {
      assert !IsAlphanumeric(ns[i]);
    }
    assert !IsValidK8sName(ns);
    var r := Namespace(ns);
    assert r.Some?;
    assert r.value == InvalidNameMessage(ns);
  }

  // ---------------------------------------------------------------------
  // File extensions
  // ---------------------------------------------------------------------

  /** `filepath.Ext` with `/` as separator: the suffix from the last `.`
      of the final path element, or nothing when that element has none. */
  function Ext(path: string): string
  {
    if |path| == 0 || path[|path| - 1] == '/' then ""
    else if path[|path| - 1] == '.' then "."
    else
      var e := Ext(path[..|path| - 1]);
      if e == "" then "" else e + [path[|path| - 1]]
  }

  /** What `Ext` returns: a suffix of the path that begins with its only
      dot and holds no separator; nothing only when no dot of the path is
      free of separators after it. */
  lemma {:induction false} ExtSuffix(path: string)
    ensures var e := Ext(path);
      e != "" ==>
        e[0] == '.' && |e| <= |path| && path[|path| - |e|..] == e
        && '/' !in e && '.' !in e[1..]
    ensures Ext(path) == "" ==> forall j | 0 <= j < |path| && path[j] == '.' :: '/' in path[j..]
  {
    if |path| > 0 && path[|path| - 1] != '/' && path[|path| - 1] != '.' {
      var init := path[..|path| - 1];
      var c := path[|path| - 1];
      ExtSuffix(init);
      var e := Ext(init);
      if e != "" {
        assert path[|path| - |e + [c]|..] == path[|path| - 1 - |e|..|path| - 1] + [c];
        assert (e + [c])[1..] == e[1..] + [c];
      } else {
        forall j | 0 <= j < |path| && path[j] == '.' ensures '/' in path[j..] {
          assert j < |init|;
          assert '/' in init[j..];
          var k :| 0 <= k < |init[j..]| && init[j..][k] == '/';
          assert path[j..][k] == '/';
        }
      }
    }
  }

  /** A name ending in a dot and a dot-free, separator-free suffix has
      that suffix as its extension. */
  lemma {:induction false} ExtOfName(stem: string, ext: string)
    requires '.' !in ext && '/' !in ext
    ensures Ext(stem + "." + ext) == "." + ext
    decreases |ext|
  {
    var path := stem + "." + ext;
    if |ext| == 0 {
      assert path[|path| - 1] == '.';
    } else {
      var init := ext[..|ext| - 1];
      assert path[..|path| - 1] == stem + "." + init;
      assert ext[|ext| - 1] in ext;
      ExtOfName(stem, init);
      assert "." + init + [ext[|ext| - 1]] == "." + ext;
    }
  }

  /** The expected extension as compared: lower-cased, with a leading
      dot added when it has none. */
  function ExpectedExtension(expected: string): string
  {
    var lower := ToLower(expected);
    if |lower| > 0 && lower[0] == '.' then lower else "." + lower
  }

  /** `FileExtension`: the path's extension and the expected one must
      agree once both are lower-cased. */
  function FileExtension(path: string, expected: string): Option<string>
  {
    var ext := ToLower(Ext(path));
    var want := ExpectedExtension(expected);
    if ext != want then Some("file must have " + want + " extension, got " + ext) else None
  }

  /** The check ignores the ASCII case of both sides and whether the
      expected extension was given with its dot. */
  lemma FileExtensionNormalized(path: string, expected: string)
    ensures FileExtension(path, expected) == FileExtension(ToUpper(path), expected)
    ensures FileExtension(path, expected) == FileExtension(path, ToUpper(expected))
    ensures (|expected| == 0 || expected[0] != '.') ==>
      FileExtension(path, expected) == FileExtension(path, "." + expected)
  {
    UpperKeepsExt(path);
    assert ToLower(ToUpper(expected)) == ToLower(expected);
    if |expected| == 0 || expected[0] != '.' {
      assert ToLower("." + expected) == "." + ToLower(expected);
    }
  }

  /** Upper-casing changes no dot or separator, so the extension of the
      upper-cased path is the upper-cased extension. */
  lemma {:induction false} UpperKeepsExt(path: string)
    ensures ToLower(Ext(ToUpper(path))) == ToLower(Ext(path))
  {
    if |path| > 0 && path[|path| - 1] != '/' && path[|path| - 1] != '.' {
      var init := path[..|path| - 1];
      assert ToUpper(path)[..|path| - 1] == ToUpper(init);
      UpperKeepsExt(init);
      var e, u := Ext(init), Ext(ToUpper(init));
      assert |e| == |ToLower(e)| && |u| == |ToLower(u)|;
      if e != "" {
        assert ToLower(e + [path[|path| - 1]]) == ToLower(e) + [LowerChar(path[|path| - 1])];
        assert ToLower(u + [UpperChar(path[|path| - 1])]) == ToLower(u) + [LowerChar(path[|path| - 1])];
      }
    }
  }

  /** A file named with the expected extension, in any case and with or
      without the dot, passes the check. */
  lemma FileWithExtensionAccepted(stem: string, ext: string)
    requires '.' !in ext && '/' !in ext
    ensures FileExtension(stem + "." + ext, ext) == None
    ensures FileExtension(stem + "." + ext, "." + ext) == None
  {
    ExtOfName(stem, ext);
    assert ToLower("." + ext) == "." + ToLower(ext);
  }
}
