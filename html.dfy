/** The artefacts written after a batch and served by the download route:
    the HTML envelope around the highlighted text, the artefact's name
    derived from the PDF's name, and the path the route looks it up under.
    Writing and reading files is left to the caller; the model only builds
    the names and the contents. */
module HtmlOutput {
  import Batch

  datatype Option<T> = None | Some(value: T)

  const UploadFolder: string := "uploads"

  const HtmlHeader: string := "<!DOCTYPE html>\n<html>\n<head>\n<title>Highlighted Text</title>\n</head>\n<body>\n"

  const HtmlFooter: string := "\n</body>\n</html>"

  const ArtefactSuffix: string := "_highlighted_text.html"

  /** The three writes of `save_highlighted_text_to_html`, in order. */
  function HtmlDocument(text: string): (r: string)
    ensures |r| == |HtmlHeader| + |text| + |HtmlFooter|
    ensures BodyOf(r) == text
  {
    HtmlHeader + text + HtmlFooter
  }

  /** The text between the fixed header and the fixed footer. */
  function BodyOf(doc: string): (r: string)
    requires |doc| >= |HtmlHeader| + |HtmlFooter|
    ensures |r| == |doc| - |HtmlHeader| - |HtmlFooter|
  {
    doc[|HtmlHeader|..|doc| - |HtmlFooter|]
  }

  /** The written document starts with the header and ends with the
      footer. */
  lemma HtmlDocumentShape(text: string)
    ensures var doc := HtmlDocument(text);
      && doc[..|HtmlHeader|] == HtmlHeader
      && doc[|doc| - |HtmlFooter|..] == HtmlFooter
  {
  }

  /** Different highlighted texts give different documents. */
  lemma HtmlDocumentInjective(t1: string, t2: string)
    requires HtmlDocument(t1) == HtmlDocument(t2)
    ensures t1 == t2
  {
    HtmlDocumentShape(t1);
    HtmlDocumentShape(t2);
  }

  /** `f'{pdf_file_name}_highlighted_text.html'`. */
  function ArtefactName(name: string): (r: string)
    ensures Batch.EndsWith(r, ArtefactSuffix)
    ensures |r| >= |name| && r[..|name|] == name
  {
    name + ArtefactSuffix
  }

  /** The artefact name ends with the fixed suffix, and removing it gives the
      PDF's name back, so distinct PDFs get distinct artefacts. */
  lemma ArtefactNameInverse(name: string)
    ensures var a := ArtefactName(name);
      && |a| == |name| + |ArtefactSuffix|
      && a[|name|..] == ArtefactSuffix
      && a[..|a| - |ArtefactSuffix|] == name
  {
  }

  lemma ArtefactNameInjective(n1: string, n2: string)
    requires ArtefactName(n1) == ArtefactName(n2)
    ensures n1 == n2
  {
    ArtefactNameInverse(n1);
    ArtefactNameInverse(n2);
  }

  /** A POSIX path starting at the root. */
  predicate IsAbsolute(p: string) {
    |p| > 0 && p[0] == '/'
  }

  /** POSIX `os.path.join(a, b)`: an absolute second part replaces the first;
      otherwise a slash is inserted unless `a` is empty or already ends in one. */
  function PathJoin(a: string, b: string): (r: string)
    ensures Batch.EndsWith(r, b)
    ensures IsAbsolute(b) ==> r == b
    ensures !IsAbsolute(b) ==> |r| >= |a| && r[..|a|] == a
  {
    if IsAbsolute(b) then b
    else if a == [] || a[|a| - 1] == '/' then a + b
    else a + "/" + b
  }

  /** What `save_highlighted_text_to_html` writes: a path and its contents. */
  datatype HtmlFile = HtmlFile(path: string, contents: string)

  /** The saved file's path ends in the artefact name, and its contents give
      the highlighted text back from between the header and the footer. */
  function SaveHighlightedTextToHtml(highlightedText: string, pdfFileName: string, htmlFolderPath: string): (f: HtmlFile)
    ensures Batch.EndsWith(f.path, ArtefactName(pdfFileName))
    ensures |f.contents| >= |HtmlHeader| + |HtmlFooter| && BodyOf(f.contents) == highlightedText
  {
    HtmlFile(PathJoin(htmlFolderPath, ArtefactName(pdfFileName)), HtmlDocument(highlightedText))
  }

  /** The path `download_html` looks the artefact up under: the `file`
      query parameter (empty when absent) turned into an artefact name in the
      upload folder. */
  function DownloadPath(fileParam: Option<string>): (r: string)
    ensures Batch.EndsWith(r, ArtefactSuffix)
    ensures fileParam.Some? ==> Batch.EndsWith(r, ArtefactName(fileParam.value))
  {
    var fileName := if fileParam.Some? then fileParam.value else "";
    PathJoin(UploadFolder, ArtefactName(fileName))
  }

  /** The download route computes the same path string the upload route
      saved under exactly when the `file` parameter is the PDF's name. Other
      strings, such as `./x` or `../uploads/x`, give a different path string
      that may still name the same file. */
  lemma DownloadFindsSaved(text: string, pdfFileName: string, fileParam: string)
    ensures DownloadPath(Some(fileParam)) == SaveHighlightedTextToHtml(text, pdfFileName, UploadFolder).path
        <==> fileParam == pdfFileName
  {
    var p1, p2 := ArtefactName(fileParam), ArtefactName(pdfFileName);
    var j1, j2 := PathJoin(UploadFolder, p1), PathJoin(UploadFolder, p2);
    if j1 == j2 {
      assert p1 == p2 by {
        if IsAbsolute(p1) && !IsAbsolute(p2) {
          UploadJoin(p2);
        } else if !IsAbsolute(p1) && IsAbsolute(p2) {
          UploadJoin(p1);
        } else if !IsAbsolute(p1) {
          UploadJoin(p1);
          UploadJoin(p2);
          assert p1 == j1[8..] && p2 == j2[8..];
        }
      }
      ArtefactNameInjective(fileParam, pdfFileName);
    }
  }

  /** Joining a relative path onto the upload folder inserts one slash. */
  lemma UploadJoin(p: string)
    requires !IsAbsolute(p)
    ensures PathJoin(UploadFolder, p) == "uploads/" + p
  {
    assert UploadFolder[|UploadFolder| - 1] == 's';
    assert UploadFolder + "/" == "uploads/";
  }

  /** A relative name stays inside the upload folder... */
  lemma RelativeNameStaysInUploads(name: string)
    requires !IsAbsolute(name)
    ensures DownloadPath(Some(name)) == "uploads/" + name + ArtefactSuffix
  {
    var a := ArtefactName(name);
    assert !IsAbsolute(a) by {
      if name == [] {
        assert a == ArtefactSuffix;
      } else {
        assert a[0] == name[0];
      }
    }
    UploadJoin(a);
  }

  /** ...but an absolute `file` parameter discards the folder, so the route
      looks outside it. */
  lemma AbsoluteNameLeavesUploads(name: string)
    requires IsAbsolute(name)
    ensures DownloadPath(Some(name)) == name + ArtefactSuffix
  {
    assert ArtefactName(name)[0] == '/';
  }

  /** Without a `file` parameter the route looks for
      `uploads/_highlighted_text.html`. */
  lemma MissingParameter()
    ensures DownloadPath(None) == "uploads/" + ArtefactSuffix
  {
    RelativeNameStaysInUploads("");
    assert "uploads/" + "" + ArtefactSuffix == "uploads/" + ArtefactSuffix;
  }
}
