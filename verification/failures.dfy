/** The ways the scripts stop: each constructor names the Python exception
    or exit it stands for. */
module Failures {

  datatype Failure =
    /** An image name without `_echo-`: the prefix search found no match. */
    | NoEchoEntity(file: string)
    /** A prefix without `_task-`: there is no second field to read. */
    | NoTaskEntity(prefix: string)
    /** The JSON sidecar was missing or had no `EchoTime`. */
    | NoEchoTime(sidecar: string)
    /** A `from-T1w` transform path with no `to-` before a `_mode`: the
        key search found no match. */
    | MalformedTransformName(file: string)
    /** The transform map has no entry for the requested key. */
    | MissingTransform(key: string)
    /** No anatomical directory: the T1w lookup gave nothing to index. */
    | NoAnatomicalDirectory(sub: string)
    /** "Could not find any multiecho data". */
    | NoMultiechoData
    /** "No tedana outputs found". */
    | NoTedanaOutputs
    /** No subject directory matched; the exit message is carried along. */
    | NoSubjectDirs(message: string)
    /** The container arguments were appended to a missing `--fmriprep`
        value. */
    | MissingContainerArgs
}
