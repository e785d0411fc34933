/** The upload filename check: `file.filename.lower().endswith('.pdf')`
    (project-root/chatbot/backend/app.py:186), over ASCII letters. */
module Filenames {

  /** ASCII case folding; every other character is left as it is. */
  function LowerChar(c: char): char {
    if 'A' <= c <= 'Z' then (c as int + 32) as char else c
  }

  function Lower(s: string): string {
    seq(|s|, i requires 0 <= i < |s| => LowerChar(s[i]))
  }

  predicate EndsWith(s: string, suffix: string) {
    |suffix| <= |s| && s[|s| - |suffix|..] == suffix
  }

  /** The extension test of the upload handler. */
  predicate HasPdfExtension(name: string) {
    EndsWith(Lower(name), ".pdf")
  }

  /** Case-insensitive reading of the test, character by character: the name
      ends in a dot followed by `p`, `d`, `f` in either case. */
  lemma PdfExtensionChars(name: string)
    ensures HasPdfExtension(name) <==>
      && |name| >= 4
      && name[|name| - 4] == '.'
      && (name[|name| - 3] == 'p' || name[|name| - 3] == 'P')
      && (name[|name| - 2] == 'd' || name[|name| - 2] == 'D')
      && (name[|name| - 1] == 'f' || name[|name| - 1] == 'F')
  {
    var l := Lower(name);
    var n := |name|;
    if n >= 4 {
      var tail := l[n - 4..];
      assert tail == [l[n - 4], l[n - 3], l[n - 2], l[n - 1]];
    }
  }

  /** The empty-filename check before it is subsumed by the extension test. */
  lemma PdfExtensionNotEmpty(name: string)
    requires HasPdfExtension(name)
    ensures name != ""
  {
  }

  /** Lower-casing the name first does not change the verdict. */
  lemma PdfExtensionCaseInsensitive(name: string)
    ensures HasPdfExtension(Lower(name)) == HasPdfExtension(name)
  {
    PdfExtensionChars(name);
    PdfExtensionChars(Lower(name));
  }
}
