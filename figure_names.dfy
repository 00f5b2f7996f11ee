/**
 File names under which the confusion-matrix and ROC figures are saved:
 a fixed prefix, the model name lower-cased with every space turned into
 `_`, and the `.png` extension.
 */
module FigureNames {

  const ConfusionMatrixPrefix := "conf_matrix_"
  const RocCurvePrefix := "roc_curve_"
  const Extension := ".png"

  predicate IsUpperAscii(c: char) {
    'A' <= c <= 'Z'
  }

  /** `str.lower()` on one character, for ASCII: upper-case letters become
      their lower-case letters, every other character is kept. */
  function LowerChar(c: char): (d: char)
    ensures !IsUpperAscii(d)
    ensures IsUpperAscii(c) ==> d != c && d as int - c as int == 'a' as int - 'A' as int
    ensures !IsUpperAscii(c) ==> d == c
  {
    if IsUpperAscii(c) then (c as int - 'A' as int + 'a' as int) as char else c
  }

  /** `str.lower()` over a whole string: one character for one. */
  function Lower(s: string): (t: string)
    ensures |t| == |s|
    ensures forall i :: 0 <= i < |s| ==> t[i] == LowerChar(s[i])
  {
    if s == [] then [] else [LowerChar(s[0])] + Lower(s[1..])
  }

  /** `str.replace(old, new)` for single-character `old` and `new`: every
      occurrence of `old` becomes `new`, all other characters stay. */
  function ReplaceChar(s: string, old_: char, new_: char): (t: string)
    ensures |t| == |s|
    ensures forall i :: 0 <= i < |s| ==> t[i] == (if s[i] == old_ then new_ else s[i])
  {
    if s == [] then []
    else [if s[0] == old_ then new_ else s[0]] + ReplaceChar(s[1..], old_, new_)
  }

  /** The model-name part of a figure name: `model_name.lower().replace(' ', '_')`.
      It maps the name one character for one: each character is lower-cased,
      or turned into `_` if it is a space. */
  function Slug(modelName: string): (s: string)
    ensures |s| == |modelName|
    ensures forall i :: 0 <= i < |modelName| ==> s[i] == SlugChar(modelName[i])
  {
    ReplaceChar(Lower(modelName), ' ', '_')
  }

  /** What happens to one character of the model name, in one step. */
  function SlugChar(c: char): char {
    if c == ' ' then '_' else LowerChar(c)
  }

  /** The confusion-matrix figure name: it starts with `conf_matrix_`, ends
      with `.png`, holds the slug in between and contains no space. */
  function ConfusionMatrixFilename(modelName: string): (f: string)
    ensures |f| == |ConfusionMatrixPrefix| + |modelName| + |Extension|
    ensures f[..|ConfusionMatrixPrefix|] == ConfusionMatrixPrefix
    ensures f[|f| - |Extension|..] == Extension
    ensures f[|ConfusionMatrixPrefix|..|f| - |Extension|] == Slug(modelName)
    ensures forall i :: 0 <= i < |f| ==> f[i] != ' '
  {
    FilenameShape(ConfusionMatrixPrefix, modelName);
    ConfusionMatrixPrefix + Slug(modelName) + Extension
  }

  /** The ROC-curve figure name: it starts with `roc_curve_`, ends with
      `.png`, holds the slug in between and contains no space. */
  function RocCurveFilename(modelName: string): (f: string)
    ensures |f| == |RocCurvePrefix| + |modelName| + |Extension|
    ensures f[..|RocCurvePrefix|] == RocCurvePrefix
    ensures f[|f| - |Extension|..] == Extension
    ensures f[|RocCurvePrefix|..|f| - |Extension|] == Slug(modelName)
    ensures forall i :: 0 <= i < |f| ==> f[i] != ' '
  {
    FilenameShape(RocCurvePrefix, modelName);
    RocCurvePrefix + Slug(modelName) + Extension
  }

  /** A slug holds neither spaces nor ASCII upper-case letters. */
  lemma SlugClean(modelName: string)
    ensures forall i :: 0 <= i < |Slug(modelName)| ==>
              Slug(modelName)[i] != ' ' && !IsUpperAscii(Slug(modelName)[i])
  {
  }

  /** Turning a slug into a slug again changes nothing. */
  lemma SlugIdempotent(modelName: string)
    ensures Slug(Slug(modelName)) == Slug(modelName)
  {
  }

  /** A figure name is its prefix, the slug and `.png`: it starts with the
      prefix, ends with `.png`, contains no space, and the slug between them
      is exactly as long as the model name. */
  lemma FilenameShape(prefix: string, modelName: string)
    requires prefix == ConfusionMatrixPrefix || prefix == RocCurvePrefix
    ensures var f := prefix + Slug(modelName) + Extension;
      && |f| == |prefix| + |modelName| + |Extension|
      && f[..|prefix|] == prefix
      && f[|f| - |Extension|..] == Extension
      && f[|prefix|..|f| - |Extension|] == Slug(modelName)
      && forall i :: 0 <= i < |f| ==> f[i] != ' '
  {
  }

  /** Two model names have the same slug exactly when they have the same
      length and agree character by character up to ASCII case and space
      versus `_`. */
  lemma SameSlugIff(a: string, b: string)
    ensures Slug(a) == Slug(b)
        <==> |a| == |b| && forall i :: 0 <= i < |a| ==> SlugChar(a[i]) == SlugChar(b[i])
  {
  }

  /** Two model names share a confusion-matrix figure file exactly when
      their slugs agree; so "Random Forest" and "random_forest" overwrite
      each other's figures. */
  lemma SameConfusionMatrixFigureIff(a: string, b: string)
    ensures ConfusionMatrixFilename(a) == ConfusionMatrixFilename(b)
        <==> |a| == |b| && forall i :: 0 <= i < |a| ==> SlugChar(a[i]) == SlugChar(b[i])
  {
  }

  /** Two model names share a ROC-curve figure file exactly when their
      slugs agree. */
  lemma SameRocCurveFigureIff(a: string, b: string)
    ensures RocCurveFilename(a) == RocCurveFilename(b)
        <==> |a| == |b| && forall i :: 0 <= i < |a| ==> SlugChar(a[i]) == SlugChar(b[i])
  {
  }
}
