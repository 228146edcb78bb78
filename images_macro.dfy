/**
 * `make_sloth_images_array` (include_images_proc_macro/src/lib.rs): the Rust
 * source text of the `SLOTH_IMAGES` array, one `include_bytes!` per file of
 * the processed-resources directory. The directory listing is a parameter.
 */
module ImagesMacro {

  const Header: string := "const SLOTH_IMAGES: &[&[u8]] = &["
  const Footer: string := "];"
  const IncludePrefix: string := "include_bytes!(\"./../resources/processed/"
  const IncludeSuffix: string := "\"),"

  /** The array element written for one file name. */
  function IncludeLine(name: string): string {
    IncludePrefix + name + IncludeSuffix
  }

  /** One element per file, in listing order. */
  function IncludeLines(names: seq<string>): (lines: seq<string>)
    ensures |lines| == |names|
    ensures forall i :: 0 <= i < |names| ==> lines[i] == IncludeLine(names[i])
  {
    if names == [] then [] else IncludeLines(names[..|names| - 1]) + [IncludeLine(names[|names| - 1])]
  }

  /** `join("")`: the pieces one after the other, with nothing between them. */
  function Concat(pieces: seq<string>): string {
    if pieces == [] then "" else pieces[0] + Concat(pieces[1..])
  }

  function TotalLength(pieces: seq<string>): nat {
    if pieces == [] then 0 else |pieces[0]| + TotalLength(pieces[1..])
  }

  lemma {:induction false} ConcatAppend(a: seq<string>, b: seq<string>)
    ensures Concat(a + b) == Concat(a) + Concat(b)
  {
    if a == [] {
      assert a + b == b;
    } else {
      assert (a + b)[1..] == a[1..] + b;
      ConcatAppend(a[1..], b);
    }
  }

  /** Joining with the empty separator loses and adds nothing: the length is the sum of the pieces'. */
  lemma {:induction false} ConcatLength(pieces: seq<string>)
    ensures |Concat(pieces)| == TotalLength(pieces)
  {
    if pieces != [] {
      ConcatLength(pieces[1..]);
    }
  }

  /**
   * The generator: start with the header, push one element per listed file,
   * push the closing bracket, and join. The result is the header, then every
   * file's element in listing order, then "];".
   */
  method MakeSlothImagesArray(names: seq<string>) returns (source: string)
    ensures source == Header + Concat(IncludeLines(names)) + Footer
  {
    var syntax: seq<string> := [Header];
    for i := 0 to |names|
      invariant syntax == [Header] + IncludeLines(names[..i])
    {
      assert names[..i + 1][..i] == names[..i];
      syntax := syntax + [IncludeLine(names[i])];
    }
    assert names[..|names|] == names;
    syntax := syntax + [Footer];
    source := Concat(syntax);
    ConcatAppend([Header] + IncludeLines(names), [Footer]);
    ConcatAppend([Header], IncludeLines(names));
    ConcatSingle(Footer);
    ConcatSingle(Header);
  }

  /** The generated text starts with the array declaration and ends with "];". */
  lemma Framing(names: seq<string>)
    ensures var source := Header + Concat(IncludeLines(names)) + Footer;
      |source| >= |Header| + |Footer| &&
      source[..|Header|] == Header &&
      source[|source| - |Footer|..] == Footer
  {
  }

  /** An empty listing gives an empty array. */
  lemma EmptyListing()
    ensures Header + Concat(IncludeLines([])) + Footer == "const SLOTH_IMAGES: &[&[u8]] = &[];"
  {
  }

  /** The length of the generated text is the sum of the lengths of its pieces. */
  lemma GeneratedLength(names: seq<string>)
    ensures |Header + Concat(IncludeLines(names)) + Footer| ==
            |Header| + TotalLength(IncludeLines(names)) + |Footer|
  {
    ConcatLength(IncludeLines(names));
  }

  /** Joining splits around any one piece. */
  lemma {:induction false} ConcatSplit(pieces: seq<string>, k: nat)
    requires k < |pieces|
    ensures Concat(pieces) == Concat(pieces[..k]) + pieces[k] + Concat(pieces[k + 1..])
  {
    var before, piece, after := pieces[..k], pieces[k], pieces[k + 1..];
    assert pieces == (before + [piece]) + after;
    ConcatAppend(before + [piece], after);
    ConcatAppend(before, [piece]);
    ConcatSingle(piece);
  }

  lemma ConcatSingle(piece: string)
    ensures Concat([piece]) == piece
  {
    assert [piece][1..] == [];
  }

  /**
   * File k's element sits after the elements of the files before it and
   * before the elements of the files after it.
   */
  lemma ElementInOrder(names: seq<string>, k: nat)
    requires k < |names|
    ensures var lines := IncludeLines(names);
      Concat(lines) == Concat(lines[..k]) + IncludeLine(names[k]) + Concat(lines[k + 1..])
  {
    ConcatSplit(IncludeLines(names), k);
  }
}
