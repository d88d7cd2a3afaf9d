/** The records of src/types/index.ts that the modelled code builds or
    reads. */
module Types {

  /** One stimulus image and its two words. */
  datatype ImageData = ImageData(id: string, fileName: string, url: string,
                                 target: string, antonym: string, model: string)

  /** The role of the word shown in a trial. */
  datatype WordType = TargetWord | AntonymWord | FactorWord | NonWord

  /** One trial: an image and the word shown after it. */
  datatype Trial = Trial(imageId: string, word: string, wordType: WordType)

  /** The fields `createSession` fills in: the trial list, the position in
      it and the completion flag. */
  datatype Session = Session(trials: seq<Trial>, currentTrialIndex: nat, completed: bool)
}
