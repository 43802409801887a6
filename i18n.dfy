/** The message catalogue (`I18n`): one tree of messages per language, a
    current language, and `t`, which finds a message by a dotted key and fills
    in its `{word}` placeholders. */
module Messages {
  import opened Optional
  import opened Strings

  /** A catalogue entry: a message, or a table of further entries by name. */
  datatype Tree = Leaf(text: string) | Node(children: map<string, Tree>)

  /** Walks `path` down from `v`; None as soon as a name is missing or a
      message is reached before the path ends. */
  function ResolveFrom(v: Option<Tree>, path: seq<string>): (r: Option<Tree>)
    ensures v.None? ==> r.None?
    ensures path != [] && r.Some? ==> v.Some? && v.value.Node? && path[0] in v.value.children
    decreases |path|
  {
    if path == [] then v
    else match v
      case Some(Node(children)) =>
        if path[0] in children then ResolveFrom(Some(children[path[0]]), path[1..]) else None
      case _ => None
  }

  /** The table of `lang`, if the catalogue has one. */
  function Table(tables: map<string, Tree>, lang: string): Option<Tree> {
    if lang in tables then Some(tables[lang]) else None
  }

  /** A `[A-Za-z0-9_]` character, as `\w` matches. */
  predicate IsWordChar(c: char) {
    ('a' <= c <= 'z') || ('A' <= c <= 'Z') || ('0' <= c <= '9') || c == '_'
  }

  /** Length of the run of word characters at the start of `s`. */
  function WordRun(s: string): (n: nat)
    ensures n <= |s|
    ensures forall k :: 0 <= k < n ==> IsWordChar(s[k])
    ensures n < |s| ==> !IsWordChar(s[n])
  {
    if s == [] || !IsWordChar(s[0]) then 0 else 1 + WordRun(s[1..])
  }

  /** What a placeholder `{w}` becomes: the parameter when it is present and
      not empty, otherwise the placeholder itself. */
  function Replacement(w: string, params: map<string, string>): (r: string)
    ensures r != []
    ensures w in params && params[w] != "" ==> r == params[w]
    ensures w !in params || params[w] == "" ==> r == "{" + w + "}"
  {
    if w in params && params[w] != "" then params[w] else "{" + w + "}"
  }

  /** `s.replace(/\{(\w+)\}/g, ...)`: one pass from left to right; text that
      is put in is not scanned again. */
  function Substitute(s: string, params: map<string, string>): (r: string)
    ensures '{' !in s ==> r == s
    decreases |s|
  {
    if s == [] then []
    else
      var n := WordRun(s[1..]);
      if s[0] == '{' && n > 0 && n + 1 < |s| && s[n + 1] == '}'
      then Replacement(s[1..n + 1], params) + Substitute(s[n + 2..], params)
      else
        assert '{' !in s ==> '{' !in s[1..] by {
          assert forall x :: x in s[1..] ==> x in s;
        }
        assert [s[0]] + s[1..] == s;
        [s[0]] + Substitute(s[1..], params)
  }

  /** What `t(key, params)` returns with `lang` as the current language. */
  function Translate(tables: map<string, Tree>, lang: string, key: string, params: Option<map<string, string>>): (r: string)
    ensures r != key ==> var found := ResolveFrom(Table(tables, lang), Split(key, '.'));
      found.Some? && found.value.Leaf?
  {
    match ResolveFrom(Table(tables, lang), Split(key, '.'))
    case Some(Leaf(s)) => if params.Some? then Substitute(s, params.value) else s
    case _ => key
  }

  class I18n {
    const translations: map<string, Tree>
    var currentLang: string

    constructor (translations: map<string, Tree>)
      ensures this.translations == translations && currentLang == "ru"
    {
      this.translations := translations;
      currentLang := "ru";
    }

    method SetLanguage(lang: string)
      modifies this
      ensures currentLang == lang
    {
      currentLang := lang;
    }

    method GetLanguage() returns (lang: string)
      ensures lang == currentLang
    {
      lang := currentLang;
    }

    /** `t`: walks the current language's table one key segment at a time and
        gives back `key` itself on any miss. */
    method T(key: string, params: Option<map<string, string>>) returns (r: string)
      ensures r == Translate(translations, currentLang, key, params)
    {
      var keys := Split(key, '.');
      var value := Table(translations, currentLang);
      var i := 0;
      while i < |keys|
        invariant 0 <= i <= |keys|
        invariant ResolveFrom(value, keys[i..]) == ResolveFrom(Table(translations, currentLang), keys)
      {
        if value.Some? && value.value.Node? && keys[i] in value.value.children {
          value := Some(value.value.children[keys[i]]);
        } else {
          return key;
        }
        i := i + 1;
      }
      assert keys[i..] == [];
      if !value.Some? || !value.value.Leaf? {
        return key;
      }
      if params.Some? {
        return Substitute(value.value.text, params.value);
      }
      return value.value.text;
    }
  }

  /** Walking a path in two parts is walking it at once. */
  lemma {:induction false} ResolveAppend(v: Option<Tree>, a: seq<string>, b: seq<string>)
    ensures ResolveFrom(v, a + b) == ResolveFrom(ResolveFrom(v, a), b)
    decreases |a|
  {
    if a != [] {
      assert (a + b)[1..] == a[1..] + b;
      match v
      case Some(Node(children)) =>
        if a[0] in children {
          ResolveAppend(Some(children[a[0]]), a[1..], b);
        }
      case _ =>
    } else {
      assert a + b == b;
    }
  }

  /** A key is the path of its segments: a message stored under segments
      without '.' is found under the key that joins them with '.'. */
  lemma TranslateJoinedKey(tables: map<string, Tree>, lang: string, path: seq<string>, s: string)
    requires |path| >= 1 && forall k :: 0 <= k < |path| ==> '.' !in path[k]
    requires ResolveFrom(Table(tables, lang), path) == Some(Leaf(s))
    ensures Translate(tables, lang, Join(path, '.'), None) == s
    ensures forall params :: Translate(tables, lang, Join(path, '.'), Some(params)) == Substitute(s, params)
  {
    SplitJoin(path, '.');
  }

  /** A segment that is missing, or a message reached with segments left,
      makes `t` give back the key. */
  lemma MissingSegmentGivesKey(tables: map<string, Tree>, lang: string, key: string, i: nat, params: Option<map<string, string>>)
    requires i < |Split(key, '.')|
    requires var keys := Split(key, '.');
      match ResolveFrom(Table(tables, lang), keys[..i])
      case Some(Node(children)) => keys[i] !in children
      case _ => true
    ensures Translate(tables, lang, key, params) == key
  {
    var keys := Split(key, '.');
    assert keys == keys[..i] + keys[i..];
    ResolveAppend(Table(tables, lang), keys[..i], keys[i..]);
  }

  /** A key naming a table rather than a message gives back the key. */
  lemma SubtreeGivesKey(tables: map<string, Tree>, lang: string, key: string, params: Option<map<string, string>>)
    requires ResolveFrom(Table(tables, lang), Split(key, '.')).Some?
    requires ResolveFrom(Table(tables, lang), Split(key, '.')).value.Node?
    ensures Translate(tables, lang, key, params) == key
  {
  }

  /** A language without a table makes every key come back unchanged. */
  lemma UnknownLanguageGivesKey(tables: map<string, Tree>, lang: string, key: string, params: Option<map<string, string>>)
    requires lang !in tables
    ensures Translate(tables, lang, key, params) == key
  {
  }

  /** Only the current language's table is consulted: there is no fallback
      to another language. */
  lemma OnlyCurrentLanguage(t1: map<string, Tree>, t2: map<string, Tree>, lang: string, key: string, params: Option<map<string, string>>)
    requires Table(t1, lang) == Table(t2, lang)
    ensures Translate(t1, lang, key, params) == Translate(t2, lang, key, params)
  {
  }

  /** Without parameters the stored message comes back exactly. */
  lemma NoParamsGivesMessage(tables: map<string, Tree>, lang: string, key: string, s: string)
    requires ResolveFrom(Table(tables, lang), Split(key, '.')) == Some(Leaf(s))
    ensures Translate(tables, lang, key, None) == s
  {
  }

  /** A placeholder at the start is replaced, and the scan goes on right
      after it. */
  lemma SubstitutePlaceholder(w: string, rest: string, params: map<string, string>)
    requires w != [] && forall k :: 0 <= k < |w| ==> IsWordChar(w[k])
    ensures Substitute("{" + w + "}" + rest, params) == Replacement(w, params) + Substitute(rest, params)
  {
    var s := "{" + w + "}" + rest;
    assert s[0] == '{' && s[|w| + 1] == '}';
    assert s[1..] == w + ("}" + rest);
    WordRunOf(w, "}" + rest);
    assert s[1..|w| + 1] == w;
    assert s[|w| + 2..] == rest;
    SubstituteAt(s, |w|, params);
  }

  /** Unfolds `Substitute` once at a placeholder whose word has length `n`. */
  lemma SubstituteAt(s: string, n: nat, params: map<string, string>)
    requires |s| > 0 && n == WordRun(s[1..])
    requires s[0] == '{' && n > 0 && n + 1 < |s| && s[n + 1] == '}'
    ensures Substitute(s, params) == Replacement(s[1..n + 1], params) + Substitute(s[n + 2..], params)
  {
  }

  lemma {:induction false} WordRunOf(w: string, rest: string)
    requires forall k :: 0 <= k < |w| ==> IsWordChar(w[k])
    requires rest == [] || !IsWordChar(rest[0])
    ensures WordRun(w + rest) == |w|
    decreases |w|
  {
    if w != [] {
      assert (w + rest)[1..] == w[1..] + rest;
      WordRunOf(w[1..], rest);
    }
  }

  /** A character that does not open a placeholder is copied. */
  lemma SubstituteOther(c: char, rest: string, params: map<string, string>)
    requires c != '{'
    ensures Substitute([c] + rest, params) == [c] + Substitute(rest, params)
  {
    assert ([c] + rest)[1..] == rest;
  }

  /** A '{' that does not open a word run closed by '}' is copied, and the
      scan goes on right after it. */
  lemma SubstituteLoneBrace(rest: string, params: map<string, string>)
    requires forall n :: 0 < n < |rest| && rest[n] == '}' ==> exists k :: 0 <= k < n && !IsWordChar(rest[k])
    ensures Substitute("{" + rest, params) == "{" + Substitute(rest, params)
  {
    var s := "{" + rest;
    assert s[1..] == rest;
  }

  /** An unclosed '{' and one before a non-word character are both kept. */
  lemma LoneBraceExample(params: map<string, string>)
    ensures Substitute("{a b}", params) == "{a b}"
    ensures Substitute("{", params) == "{"
  {
    var rest := "a b}";
    assert "{a b}" == "{" + rest;
    assert !IsWordChar(rest[1]);
    SubstituteLoneBrace(rest, params);
    assert '{' !in rest;
    SubstituteLoneBrace("", params);
    assert "{" + "" == "{";
  }

  /** With no parameter that applies, every placeholder is kept verbatim and
      the message is unchanged. */
  lemma {:induction false} SubstituteEmpty(s: string)
    ensures Substitute(s, map[]) == s
    decreases |s|
  {
    if s != [] {
      var n := WordRun(s[1..]);
      if s[0] == '{' && n > 0 && n + 1 < |s| && s[n + 1] == '}' {
        SubstituteEmpty(s[n + 2..]);
        PlaceholderSplit(s, n);
      } else {
        SubstituteEmpty(s[1..]);
        assert [s[0]] + s[1..] == s;
      }
    }
  }

  lemma PlaceholderSplit(s: string, n: nat)
    requires n + 1 < |s| && s[0] == '{' && s[n + 1] == '}'
    ensures "{" + s[1..n + 1] + "}" + s[n + 2..] == s
  {
    assert s == s[..1] + s[1..n + 1] + s[n + 1..n + 2] + s[n + 2..];
  }

  /** Text put in for a placeholder is not scanned again. */
  lemma NoRescanExample()
    ensures Substitute("{a}", map["a" := "{b}", "b" := "x"]) == "{b}"
  {
    SubstitutePlaceholder("a", "", map["a" := "{b}", "b" := "x"]);
    assert "{" + "a" + "}" + "" == "{a}";
  }

  /** An empty parameter, and a missing one, leave the placeholder in
      place. */
  lemma EmptyParamKeepsPlaceholder(w: string, params: map<string, string>)
    requires w != [] && forall k :: 0 <= k < |w| ==> IsWordChar(w[k])
    requires w !in params || params[w] == ""
    ensures Substitute("{" + w + "}", params) == "{" + w + "}"
  {
    SubstitutePlaceholder(w, "", params);
    assert "{" + w + "}" + "" == "{" + w + "}";
  }
}
