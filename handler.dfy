/** The watcher's event handler, `ImageHandler`: which newly created files it
    acts on, where it looks for their label file, and where it writes the
    redacted copy. */
module Handler {
  import opened Options
  import opened PathOps
  import opened Geometry
  import opened Redaction

  /** A file-system creation event: the path of the new entry and whether it
      is a directory. */
  datatype Event = Event(srcPath: string, isDirectory: bool)

  /** The prefix of every output file name. */
  const Marker: string := "redacted_"

  /** The path ends, case-sensitively, in one of the image extensions. */
  predicate HasImageExtension(path: string) {
    EndsWith(path, ".jpg") || EndsWith(path, ".jpeg") || EndsWith(path, ".png")
  }

  /** `on_created` goes on to process the file exactly when the event is not
      about a directory, the path ends in an image extension, and the base
      name does not contain the marker anywhere. */
  predicate Dispatches(event: Event) {
    !event.isDirectory && HasImageExtension(event.srcPath) && !Contains(Basename(event.srcPath), Marker)
  }

  /** Only the file name is searched for the marker: a new image in a folder
      that happens to be called "redacted_" is still processed. */
  lemma MarkerInFolderNameIgnored()
    ensures Dispatches(Event("redacted_/bus.png", false))
  {
    BusPngInMarkerFolder();
  }

  lemma BusPngInMarkerFolder()
    ensures Basename("redacted_/bus.png") == "bus.png"
  {
    assert Join("redacted_", "bus.png") == "redacted_/bus.png" by {
      assert "bus.png"[0] != '/';
    }
    BasenameOfJoin("redacted_", "bus.png");
  }

  /** The extension test is case-sensitive: "bus.JPG" is not an image to the
      handler. */
  lemma ExtensionIsCaseSensitive()
    ensures !Dispatches(Event("results/bus.JPG", false))
  {
    var p := "results/bus.JPG";
    assert p[|p| - 4..] == ".JPG";
    assert p[|p| - 5..] == "s.JPG";
  }

  /** The image's file name without its last extension. */
  function Stem(imagePath: string): (r: string)
    ensures '/' !in r
  {
    var name := Basename(imagePath);
    var parts := SplitExt(name);
    assert forall i :: 0 <= i < |parts.0| ==> parts.0[i] == name[i];
    parts.0
  }

  /** Where the label file of an image is looked for: in the label folder,
      under the image's stem with ".txt". Only the image's file name counts,
      not the folder it is in. */
  function LabelPath(labelFolder: string, imagePath: string): (r: string)
    ensures StartsWith(r, labelFolder)
    ensures Basename(r) == Stem(imagePath) + ".txt"
    ensures r == labelFolder + Basename(r) || r == labelFolder + "/" + Basename(r)
  {
    var name := Stem(imagePath) + ".txt";
    assert '/' !in name by {
      assert forall i :: 0 <= i < |name| ==> name[i] == if i < |Stem(imagePath)| then Stem(imagePath)[i] else ".txt"[i - |Stem(imagePath)|];
    }
    BasenameOfJoin(labelFolder, name);
    Join(labelFolder, name)
  }

  /** Where the redacted copy is written: in the output folder, under the
      image's file name with the marker in front. */
  function OutputPath(outputFolder: string, imagePath: string): (r: string)
    ensures StartsWith(r, outputFolder)
    ensures Basename(r) == Marker + Basename(imagePath)
    ensures r == outputFolder + Basename(r) || r == outputFolder + "/" + Basename(r)
  {
    assert (Marker + Basename(imagePath))[0] == 'r';
    BasenameOfJoin(outputFolder, Marker + Basename(imagePath));
    Join(outputFolder, Marker + Basename(imagePath))
  }

  /** The guard against a processing loop: a file the handler writes, seen
      again as a new file (when the output folder is the watched one), is
      never processed. */
  lemma OutputIsNeverDispatched(outputFolder: string, imagePath: string)
    ensures !Dispatches(Event(OutputPath(outputFolder, imagePath), false))
  {
    var name := Basename(OutputPath(outputFolder, imagePath));
    assert OccursAt(name, Marker, 0);
  }

  /** The folder an image sits in plays no part in where its label is looked for. */
  lemma LabelPathIgnoresFolder(labelFolder: string, imageFolder: string, name: string)
    requires '/' !in name
    ensures LabelPath(labelFolder, Join(imageFolder, name)) == LabelPath(labelFolder, name)
  {
    BasenameOfJoin(imageFolder, name);
    BasenameOfName(name);
  }

  /** "folder/photo.jpg" has its label at "labelFolder/photo.txt": the last
      extension is replaced by ".txt", and earlier dots stay in the stem. */
  lemma LabelPathReplacesExtension(labelFolder: string, imageFolder: string, stem: string, ext: string)
    requires '/' !in stem && !AllDots(stem)
    requires '/' !in ext && '.' !in ext
    ensures LabelPath(labelFolder, Join(imageFolder, stem + "." + ext)) == Join(labelFolder, stem + ".txt")
  {
    var name := stem + "." + ext;
    assert '/' !in name by {
      assert forall i :: 0 <= i < |name| ==> name[i] == if i < |stem| then stem[i] else ("." + ext)[i - |stem|];
    }
    BasenameOfJoin(imageFolder, name);
    SplitExtOfNamePlusExt(stem, ext);
  }

  /** Holds the three folders the handler is configured with; they are set
      once, when it is created. */
  class ImageHandler {
    const inputFolder: string
    const labelFolder: string
    const outputFolder: string

    constructor (inputFolder: string, labelFolder: string, outputFolder: string)
      ensures this.inputFolder == inputFolder
      ensures this.labelFolder == labelFolder
      ensures this.outputFolder == outputFolder
    {
      this.inputFolder := inputFolder;
      this.labelFolder := labelFolder;
      this.outputFolder := outputFolder;
    }

    /** `process_image`. `labelFiles` is the content of the label folder
        (path to lines) and `image` the pixel buffer the image file decodes
        to. When the label file exists, every accepted line's box is blacked
        out in `image` and the result is saved under the output path, which
        is returned; this happens even when no line is accepted. When it does
        not exist, nothing is read, changed or written. */
    method ProcessImage(imagePath: string, labelFiles: map<string, seq<string>>, image: array2<Pixel>)
      returns (saved: Option<string>)
      modifies image
      ensures var labelPath := LabelPath(labelFolder, imagePath);
              saved == if labelPath in labelFiles then Some(OutputPath(outputFolder, imagePath)) else None
      ensures var labelPath := LabelPath(labelFolder, imagePath);
              labelPath in labelFiles ==>
                forall row, col :: 0 <= row < image.Length0 && 0 <= col < image.Length1 ==>
                  image[row, col] == Redacted(old(image[row, col]), Regions(labelFiles[labelPath], image.Length0, image.Length1),
                                              image.Length0, image.Length1, row, col)
      ensures LabelPath(labelFolder, imagePath) !in labelFiles ==> unchanged(image)
    {
      var labelPath := Join(labelFolder, Stem(imagePath) + ".txt");
      if labelPath in labelFiles {
        var lines := labelFiles[labelPath];
        RedactLines(image, lines);
        var redactedPath := Join(outputFolder, Marker + Basename(imagePath));
        saved := Some(redactedPath);
      } else {
        saved := None;
      }
    }

    /** `on_created`: a directory, a file without an image extension, or a
        file whose name carries the marker is ignored; any other new file is
        handed to `ProcessImage`. The path it returns is never dispatched
        again. */
    method OnCreated(event: Event, labelFiles: map<string, seq<string>>, image: array2<Pixel>)
      returns (saved: Option<string>)
      modifies image
      ensures saved.Some? <==> Dispatches(event) && LabelPath(labelFolder, event.srcPath) in labelFiles
      ensures saved.Some? ==>
                saved.value == OutputPath(outputFolder, event.srcPath) &&
                !Dispatches(Event(saved.value, false)) &&
                forall row, col :: 0 <= row < image.Length0 && 0 <= col < image.Length1 ==>
                  image[row, col] == Redacted(old(image[row, col]),
                                              Regions(labelFiles[LabelPath(labelFolder, event.srcPath)], image.Length0, image.Length1),
                                              image.Length0, image.Length1, row, col)
      ensures saved.None? ==> unchanged(image)
    {
      if event.isDirectory {
        return None;
      }
      if HasImageExtension(event.srcPath) {
        if Contains(Basename(event.srcPath), Marker) {
          return None;
        }
        saved := ProcessImage(event.srcPath, labelFiles, image);
        if saved.Some? {
          OutputIsNeverDispatched(outputFolder, event.srcPath);
        }
      } else {
        saved := None;
      }
    }
  }
}
