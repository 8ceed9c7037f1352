TestResult.DisplayName,TestResult.Outcome,TestResult.Duration,TestResult.ResourceCount,RandomSeed
Codec.ItemsToJson (well-formedness),Passed,00:00:00.4653159,749501,3
