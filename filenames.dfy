/**
 * `to_filename`: the canonical file name of an article, derived from its
 * title. The name is the title with spaces turned into underscores and the
 * first character upper-cased, mapped through the three-level directory
 * sharding of `to3dirs.get_path_file` and joined into one relative path.
 * That sharding lives outside this model and is the parameter `shard`
 * (one function for `get_path_file` followed by `os.path.join`).
 */
module Filenames {
  import opened Wrappers

  /** `os.path.join(*to3dirs.get_path_file(name))`, not part of this model. */
  type Shard = string -> string

  /** `str.upper` on one character, for the ASCII letters. */
  function Upper(c: char): (u: char)
    ensures 'a' <= c <= 'z' ==> 'A' <= u <= 'Z' && u as int == c as int - 32
    ensures !('a' <= c <= 'z') ==> u == c
  {
    if 'a' <= c <= 'z' then (c as int - 32) as char else c
  }

  /** `title.replace(" ", "_")`. */
  function Underscored(s: string): (r: string)
    ensures |r| == |s|
    ensures forall i :: 0 <= i < |s| ==> r[i] == if s[i] == ' ' then '_' else s[i]
  {
    if |s| == 0 then [] else [if s[0] == ' ' then '_' else s[0]] + Underscored(s[1..])
  }

  /**
   * The name `to_filename` hands to the sharding: the two branches of the
   * source (length at least 2, and length 1) and its `ValueError` on an
   * empty title.
   */
  function CanonicalTitle(title: string): Result<string>
  {
    var tt := Underscored(title);
    if |tt| >= 2 then Success([Upper(tt[0])] + tt[1..])
    else if |tt| == 1 then Success([Upper(tt[0])])
    else Failure(InvalidTitle)
  }

  function ToFilename(shard: Shard, title: string): Result<string>
  {
    var name := CanonicalTitle(title);
    if name.Failure? then Failure(name.error) else Success(shard(name.value))
  }

  /**
   * The canonical title fails exactly on the empty title; otherwise it has
   * the title's length, the first character upper-cased after the space
   * replacement, and every later character only has spaces replaced.
   */
  lemma CanonicalTitleSpec(title: string)
    ensures CanonicalTitle(title).Failure? <==> |title| == 0
    ensures CanonicalTitle(title).Failure? ==> CanonicalTitle(title).error == InvalidTitle
    ensures CanonicalTitle(title).Success? ==>
      var name := CanonicalTitle(title).value;
      && |name| == |title|
      && name[0] == Upper(if title[0] == ' ' then '_' else title[0])
      && forall i :: 1 <= i < |title| ==> name[i] == if title[i] == ' ' then '_' else title[i]
  {
  }

  /** A canonical title has no spaces and starts with no lower-case ASCII letter. */
  lemma CanonicalTitleShape(title: string)
    requires |title| > 0
    ensures var name := CanonicalTitle(title).value;
      && ' ' !in name
      && !('a' <= name[0] <= 'z')
  {
    CanonicalTitleSpec(title);
    var name := CanonicalTitle(title).value;
    forall i | 0 <= i < |name| ensures name[i] != ' ' {
    }
  }

  /** Normalising an already canonical title changes nothing. */
  lemma CanonicalTitleIdempotent(title: string)
    requires |title| > 0
    ensures CanonicalTitle(CanonicalTitle(title).value) == CanonicalTitle(title)
  {
    var name := CanonicalTitle(title).value;
    CanonicalTitleSpec(title);
    CanonicalTitleShape(title);
    CanonicalTitleSpec(name);
    var again := CanonicalTitle(name).value;
    forall i | 0 <= i < |name| ensures again[i] == name[i] {
      assert name[i] != ' ' by { assert name[i] in name; }
    }
    assert again == name;
  }

  /**
   * `to_filename` fails exactly on the empty title, and the file name of a
   * title is the sharding of its canonical title.
   */
  lemma ToFilenameSpec(shard: Shard, title: string)
    ensures ToFilename(shard, title).Failure? <==> |title| == 0
    ensures ToFilename(shard, title).Success? ==>
      ToFilename(shard, title).value == shard(CanonicalTitle(title).value)
  {
    CanonicalTitleSpec(title);
  }

  /** Titles differing only in spaces versus underscores share one file name. */
  lemma ToFilenameSpaces(shard: Shard, a: string, b: string)
    requires Underscored(a) == Underscored(b)
    ensures ToFilename(shard, a) == ToFilename(shard, b)
  {
  }
}
