/** The class `ConvertorPDF2PNG`: its settings are fixed when it is built;
    its methods work on a live filesystem and leave it in the state the
    functions of `Pipeline` describe for the convertor as written. */
module Convertor {
  import opened Wrappers
  import opened Paths
  import opened TemplateFormat
  import opened Naming
  import opened Sanitizer
  import opened Validation
  import opened Storage
  import opened Os
  import opened Pipeline

  class ConvertorPdf2Png {
    const config: Config
    /** `self.supported_formats`, lower-cased once. */
    const supportedFormats: seq<string> := SupportedFormats(config.formats)
    const fs: FileSystem

    constructor (config: Config, fs: FileSystem)
      ensures this.config == config && this.fs == fs
    {
      this.config := config;
      this.fs := fs;
    }

    /** `validate_input_file`. */
    method ValidateInputFile(path: string) returns (valid: bool)
      ensures valid == IsValidInput(fs.files, supportedFormats, path)
    {
      if !fs.IsFile(path) {
        return false;
      }
      valid := Lower(Extension(path)) in supportedFormats;
    }

    /** `remove_special_characters_from_filename`: the new path is the
        directory part, `/` and the cleaned file name. */
    method RemoveSpecialCharactersFromFilename(path: string, renameOk: bool) returns (r: Result<string, Failure>)
      modifies fs
      ensures Effect(fs.State(), r) == SanitizeFile(AsWritten, old(fs.State()), path, renameOk)
    {
      if !fs.IsFile(path) {
        return Ok(path);
      }
      var directory := Directory(path);
      var fileName := FileName(path);
      var cleanedName := ReplaceUnkeptCharacters(fileName);
      var target := directory + "/" + cleanedName;
      var renamed := fs.Rename(path, target, renameOk);
      if renamed.Err? {
        return Err(renamed.error);
      }
      if !fs.IsFile(target) {
        return Ok(path);
      }
      return Ok(target);
    }

    /** `create_directory`. */
    method CreateDirectory(path: string) returns (r: Result<(), Failure>)
      modifies fs
      ensures Effect(fs.State(), r) == Pipeline.CreateDirectory(old(fs.State()), path)
    {
      if !fs.IsDir(path) {
        r := fs.MakeDirs(path);
      } else {
        r := Ok(());
      }
    }

    /** `process_poppeller_output`. */
    method ProcessPopplerOutput<I>(pages: seq<Page<I>>, template: string, outputPath: string)
      returns (r: Result<seq<string>, Failure>)
      modifies fs
      ensures Effect(fs.State(), r) == ProcessOutput(old(fs.State()), pages, template, outputPath, config)
    {
      if pages == [] {
        return Ok([]);
      }
      var total := |pages|;
      var dir := outputPath + "/" + config.pngFiles;
      var made := CreateDirectory(dir);
      if made.Err? {
        return Err(made.error);
      }
      ghost var start := fs.State();
      var written: seq<string> := [];
      var i := 0;
      while i < total
        invariant 0 <= i <= total && |written| == i
        invariant WritePages(fs.State(), pages, i, written, dir, template, config.maxPages)
               == WritePages(start, pages, 0, [], dir, template, config.maxPages)
      {
        var name := Format(template, Decimal(i + 1), Decimal(total));
        if name.None? {
          return Err(TemplateRejected(template));
        }
        var path := dir + "/" + name.value;
        if !pages[i].saves {
          break;
        }
        fs.Save(path);
        written := written + [path];
        if |written| >= config.maxPages {
          break;
        }
        i := i + 1;
      }
      return Ok(written);
    }

    /** `move_processed_pdf`; `attempts` holds the outcome of every try of
        `shutil.move` and the clock reading taken after it fails. */
    method MoveProcessedPdf(source: string, dest: string, attempts: seq<Attempt>) returns (r: Result<(), Failure>)
      modifies fs
      ensures Effect(fs.State(), r) == Relocate(old(fs.State()), source, dest, attempts)
      decreases |attempts|
    {
      if !fs.IsFile(source) {
        return Ok(());
      }
      var made := CreateDirectory(dest);
      if made.Err? {
        return Err(made.error);
      }
      if attempts == [] {
        return Err(RetriesExhausted(source));
      }
      var moved := fs.MoveInto(source, dest, attempts[0].ok);
      if moved.Ok? {
        return Ok(());
      }
      r := MoveProcessedPdf(source, dest + "/fail_to_move/" + Decimal(attempts[0].millis), attempts[1..]);
    }

    /** `convert_pdf_file_to_png_files`. */
    method ConvertPdfFileToPngFiles<I>(path: string, outputPath: string, env: Environment<I>)
      returns (r: Result<Returned, Failure>)
      modifies fs
      ensures Effect(fs.State(), r) == Convert(AsWritten, old(fs.State()), config, path, outputPath, env)
    {
      var valid := ValidateInputFile(path);
      if !valid {
        return Ok(Rejected);
      }
      var cleaned := RemoveSpecialCharactersFromFilename(path, env.renameOk);
      if cleaned.Err? {
        return Err(cleaned.error);
      }
      var pdf := cleaned.value;
      var made := CreateDirectory(outputPath);
      if made.Err? {
        return Err(made.error);
      }
      var template := OutputTemplateAsWritten(pdf, config.imageFormat);
      var pages := EnginePages(env.engine);
      var written := ProcessPopplerOutput(pages, template, outputPath);
      if written.Err? {
        return Err(written.error);
      }
      var outputs := written.value;
      var moved: Result<(), Failure>;
      if outputs == [] {
        moved := MoveProcessedPdf(pdf, outputPath + "/" + config.failedToConvert, env.attempts);
      } else {
        moved := MoveProcessedPdf(pdf, outputPath + "/" + config.pdfFiles, env.attempts);
      }
      if moved.Err? {
        return Err(moved.error);
      }
      return Ok(Converted(pdf, outputs));
    }
  }
}
