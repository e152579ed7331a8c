/** Paths of keys into nested dictionaries, written as one string: keys are separated by
    dots, and dots and backslashes of a key are escaped. */
module KeyPaths {

  type Path = seq<string>

  function Escaped(ch: char): string {
    if ch == '\\' || ch == '.' then ['\\', ch] else [ch]
  }

  function Encoded(key: string): string {
    if key == "" then "" else Encoded(key[..|key| - 1]) + Escaped(key[|key| - 1])
  }

  method EncodeKey(key: string) returns (res: string)
    ensures res == Encoded(key)
  {
    res := "";
    for i := 0 to |key|
      invariant res == Encoded(key[..i])
    {
      assert key[..i + 1][..i] == key[..i];
      var ch := key[i];
      if ch == '\\' || ch == '.' {
        res := res + ['\\'];
      }
      res := res + [ch];
    }
    assert key[..|key|] == key;
  }

  /** The keys of a path, each encoded, with dots between them. */
  function KeyPath(path: Path): string {
    if path == [] then ""
    else if |path| == 1 then Encoded(path[0])
    else KeyPath(path[..|path| - 1]) + "." + Encoded(path[|path| - 1])
  }

  /** Encodes every key and joins them: what both halves of `delta_plist_helper` do to a path. */
  method JoinPath(path: Path) returns (res: string)
    ensures res == KeyPath(path)
  {
    res := "";
    var first := true;
    for i := 0 to |path|
      invariant res == KeyPath(path[..i]) && (first <==> i == 0)
    {
      assert path[..i + 1][..i] == path[..i];
      var item := EncodeKey(path[i]);
      if !first {
        res := res + ".";
      }
      first := false;
      res := res + item;
    }
    assert path[..|path|] == path;
  }

  /** What is left to do for `parse_key_path` when `res` has been read. */
  function ParseRest(s: string, res: Path, escape: bool): (r: Path)
    requires res != []
    ensures r != []
  {
    if s == "" then res
    else if !escape && s[0] == '.' then ParseRest(s[1..], res + [""], false)
    else if !escape && s[0] == '\\' then ParseRest(s[1..], res, true)
    else ParseRest(s[1..], res[..|res| - 1] + [res[|res| - 1] + [s[0]]], false)
  }

  function Parsed(keyPath: string): (r: Path)
    ensures r != []
  {
    ParseRest(keyPath, [""], false)
  }

  method ParseKeyPath(keyPath: string) returns (res: Path)
    ensures res == Parsed(keyPath)
  {
    res := [""];
    var escape := false;
    for i := 0 to |keyPath|
      invariant res != [] && ParseRest(keyPath[i..], res, escape) == Parsed(keyPath)
    {
      assert keyPath[i..][1..] == keyPath[i + 1..];
      var ch := keyPath[i];
      if !escape && ch == '.' {
        res := res + [""];
      } else if !escape && ch == '\\' {
        escape := true;
      } else {
        res := res[..|res| - 1] + [res[|res| - 1] + [ch]];
        escape := false;
      }
    }
  }

  // ---- encoding is undone by parsing --------------------------------------------------

  lemma ParseEscaped(ch: char, rest: string, done: Path, key: string)
    ensures ParseRest(Escaped(ch) + rest, done + [key], false) == ParseRest(rest, done + [key + [ch]], false)
  {
    var res := done + [key];
    var s := Escaped(ch) + rest;
    assert res[..|res| - 1] == done;
    if ch == '\\' || ch == '.' {
      assert s[0] == '\\' && s[1..] == [ch] + rest && ([ch] + rest)[1..] == rest;
      assert ParseRest(s, res, false) == ParseRest([ch] + rest, res, true);
    } else {
      assert s[1..] == rest;
    }
  }

  lemma {:induction false} ParseEncoded(key: string, rest: string, done: Path)
    ensures ParseRest(Encoded(key) + rest, done + [""], false) == ParseRest(rest, done + [key], false)
  {
    if key == "" {
      assert Encoded(key) + rest == rest;
    } else {
      var front, ch := key[..|key| - 1], key[|key| - 1];
      assert Encoded(key) + rest == Encoded(front) + (Escaped(ch) + rest);
      ParseEncoded(front, Escaped(ch) + rest, done);
      ParseEscaped(ch, rest, done, front);
      assert front + [ch] == key;
    }
  }

  lemma {:induction false} ParseJoined(path: Path, rest: string)
    requires path != []
    ensures ParseRest(KeyPath(path) + rest, [""], false) == ParseRest(rest, path, false)
  {
    hide ParseRest, KeyPath, Encoded;
    var front, key := path[..|path| - 1], path[|path| - 1];
    KeyPathOf(path);
    if |path| == 1 {
      ParseEncoded(key, rest, []);
      assert [] + [""] == [""] && [] + [key] == path;
    } else {
      var tail := "." + (Encoded(key) + rest);
      assert KeyPath(path) + rest == KeyPath(front) + tail;
      ParseJoined(front, tail);
      ParseDot(Encoded(key) + rest, front);
      ParseEncoded(key, rest, front);
      assert front + [key] == path;
    }
  }

  lemma KeyPathOf(path: Path)
    requires path != []
    ensures var front, key := path[..|path| - 1], path[|path| - 1];
            KeyPath(path) == if |path| == 1 then Encoded(key) else KeyPath(front) + "." + Encoded(key)
  {
  }

  lemma ParseDot(rest: string, done: Path)
    requires done != []
    ensures ParseRest("." + rest, done, false) == ParseRest(rest, done + [""], false)
  {
    assert ("." + rest)[0] == '.' && ("." + rest)[1..] == rest;
  }

  /** Parsing a key path gives back the keys, whatever they are made of. */
  lemma KeyPathUndone(path: Path)
    requires path != []
    ensures Parsed(KeyPath(path)) == path
  {
    ParseJoined(path, "");
    assert KeyPath(path) + "" == KeyPath(path);
  }

  /** Text without dots and backslashes is a key. */
  predicate Plain(s: string) {
    '.' !in s && '\\' !in s
  }

  /** Encoding costs a character for every dot and every backslash, and leaves all other keys as they are. */
  lemma {:induction false} EncodedLength(key: string)
    ensures |Encoded(key)| == |key| + multiset(key)['.'] + multiset(key)['\\']
    ensures Plain(key) ==> Encoded(key) == key
  {
    if key != "" {
      var front, ch := key[..|key| - 1], key[|key| - 1];
      assert key == front + [ch];
      EncodedLength(front);
    }
  }

  lemma {:induction false} ParsePlain(s: string, rest: string, done: Path, key: string)
    requires Plain(s)
    ensures ParseRest(s + rest, done + [key], false) == ParseRest(rest, done + [key + s], false)
  {
    var res := done + [key];
    if s == "" {
      assert s + rest == rest && key + s == key;
    } else {
      assert (s + rest)[0] == s[0] && (s + rest)[1..] == s[1..] + rest;
      assert res[..|res| - 1] == done;
      ParsePlain(s[1..], rest, done, key + [s[0]]);
      assert key + [s[0]] + s[1..] == key + s;
    }
  }

  /** Dots divide keys, and a backslash makes a key of any character behind it. */
  lemma PlainKeys(s: string, t: string, ch: char)
    requires Plain(s) && Plain(t)
    ensures Parsed(s) == [s] && Parsed(s + "." + t) == [s, t] && Parsed(s + ['\\', ch] + t) == [s + [ch] + t]
  {
    hide ParseRest;
    assert "" + s == s && "" + t == t && s + "" == s && t + "" == t;
    assert [] + [""] == [""] && [] + [s] == [s];
    ParsePlain(s, "", [], "");
    ParseEnd([s]);
    assert s + "." + t == s + ("." + t);
    ParsePlain(s, "." + t, [], "");
    ParseDot(t, [s]);
    ParsePlain(t, "", [s], "");
    assert [s] + [t] == [s, t];
    ParseEnd([s, t]);
    assert s + ['\\', ch] + t == s + (['\\', ch] + t);
    ParsePlain(s, ['\\', ch] + t, [], "");
    ParseBackslash(ch, t, s);
    ParsePlain(t, "", [], s + [ch]);
    assert [] + [s + [ch] + t] == [s + [ch] + t] && [] + [s + [ch]] == [s + [ch]];
    ParseEnd([s + [ch] + t]);
  }

  lemma ParseEnd(done: Path)
    requires done != []
    ensures ParseRest("", done, false) == done
  {
  }

  lemma ParseBackslash(ch: char, rest: string, key: string)
    ensures ParseRest(['\\', ch] + rest, [key], false) == ParseRest(rest, [key + [ch]], false)
  {
    var s := ['\\', ch] + rest;
    assert s[0] == '\\' && s[1..] == [ch] + rest && ([ch] + rest)[1..] == rest;
    assert ParseRest(s, [key], false) == ParseRest([ch] + rest, [key], true);
    assert [key][..0] + [key + [ch]] == [key + [ch]];
  }

  /** So different paths are written differently. */
  lemma KeyPathInjective(a: Path, b: Path)
    requires a != [] && b != [] && KeyPath(a) == KeyPath(b)
    ensures a == b
  {
    KeyPathUndone(a);
    KeyPathUndone(b);
  }
}
